/** Equalized splits in one direction share their cells as evenly as integers allow. */
module FairDivision {
  import opened Prelude
  import opened LayoutTree
  import opened Geometry

  function Ceiling(p: real): int { -((-p).Floor) }

  const LEAST_RATIO := 1.0 / 65536.0

  /** For one pane's part of at most 65536 slots, rounding lands on the floor or the ceiling of the exact product. */
  ghost predicate RoundsNearby(round: Rounding) {
    forall r: real, extent: nat :: LEAST_RATIO <= r <= 1.0 && extent <= U16_MAX ==>
      NearbyAt(round, r, extent)
  }

  ghost predicate NearbyAt(round: Rounding, r: real, extent: nat) {
    IsFloorOrCeiling((extent + 1) as real * r, round(r, extent))
  }

  predicate IsFloorOrCeiling(p: real, n: int) {
    p.Floor <= n <= Ceiling(p)
  }

  // ----- why 32-bit floats round nearby -----

  /** Correct rounding of a positive number to a significand of 24 bits, as IEEE 754 asks of division and multiplication. */
  ghost predicate RoundedTo(exact: real, stored: real) {
    exact - exact / 16777216.0 <= stored <= exact + exact / 16777216.0
  }

  ghost predicate Nearest(p: real, n: int) {
    n as real - 0.5 <= p <= n as real + 0.5
  }

  /** The stored ratio is a rounded quotient, the product with the slots is rounded again, then to the nearest integer. */
  ghost predicate RoundedTwice(r: real, slots: real, n: int, ratio: real, product: real) {
    RoundedTo(r, ratio) && RoundedTo(slots * ratio, product) && Nearest(product, n)
  }

  ghost predicate ComputedInSingle(r: real, slots: real, n: int) {
    exists ratio, product :: RoundedTwice(r, slots, n, ratio, product)
  }

  /** What the code computes in 32-bit floats. */
  ghost predicate SinglePrecision(round: Rounding) {
    forall r: real, extent: nat :: LEAST_RATIO <= r <= 1.0 && extent <= U16_MAX ==>
      SingleAt(round, r, extent)
  }

  ghost predicate SingleAt(round: Rounding, r: real, extent: nat) {
    ComputedInSingle(r, (extent + 1) as real, round(r, extent))
  }

  /** Both roundings together move the product by less than a quarter of a cell. */
  lemma SinglePrecisionIsNearby(round: Rounding)
    requires SinglePrecision(round)
    ensures RoundsNearby(round)
  {
    forall r: real, extent: nat | LEAST_RATIO <= r <= 1.0 && extent <= U16_MAX
      ensures NearbyAt(round, r, extent)
    {
      assert SingleAt(round, r, extent);
      SingleIsNear(r, (extent + 1) as real, (extent + 1) as real * r, round(r, extent));
    }
  }

  lemma SingleIsNear(r: real, slots: real, exact: real, n: int)
    requires 0.0 <= r <= 1.0 && 0.0 <= slots <= 65536.0 && exact == slots * r && ComputedInSingle(r, slots, n)
    ensures IsFloorOrCeiling(exact, n)
  {
    var ratio, product :| RoundedTwice(r, slots, n, ratio, product);
    SmallError(slots, r, ratio, exact, slots * ratio, product);
    WithinOne(exact, n);
  }

  lemma SmallError(slots: real, r: real, ratio: real, exact: real, almost: real, product: real)
    requires 0.0 <= slots <= 65536.0 && 0.0 <= r <= 1.0 && exact == slots * r && almost == slots * ratio
    requires RoundedTo(r, ratio) && RoundedTo(almost, product)
    ensures -0.25 <= product - exact <= 0.25
  {
    Difference(slots, r, ratio, exact, almost);
    Spread(slots, ratio - r, 1.0 / 16777216.0, almost - exact);
    Spread(slots, r, 1.0, exact);
  }

  lemma Difference(slots: real, x: real, y: real, p: real, q: real)
    requires p == slots * x && q == slots * y
    ensures q - p == slots * (y - x)
  {
  }

  /** At most 65536 times a bounded value. */
  lemma Spread(slots: real, x: real, bound: real, p: real)
    requires 0.0 <= slots <= 65536.0 && -bound <= x <= bound && p == slots * x
    ensures -(65536.0 * bound) <= p <= 65536.0 * bound
  {
    var b := bound * slots;
    Monotone(slots, x, bound);
    Monotone(slots, -x, bound);
    assert slots * -x == -p;
    AtMost65536(bound, slots, b);
    assert slots * bound == b;
  }

  lemma Monotone(c: real, x: real, y: real)
    requires c >= 0.0 && x <= y
    ensures c * x <= c * y
  {
  }

  lemma AtMost65536(c: real, x: real, p: real)
    requires c >= 0.0 && x <= 65536.0 && p == c * x
    ensures p <= 65536.0 * c
  {
    assert c * (65536.0 - x) >= 0.0;
  }

  /** An integer less than one away is the floor or the ceiling. */
  lemma WithinOne(p: real, n: int)
    requires -1.0 < n as real - p < 1.0
    ensures IsFloorOrCeiling(p, n)
  {
  }

  /** Exact arithmetic rounds nearby all the more. */
  lemma HalfUpIsNearby()
    ensures RoundsNearby(RoundHalfUp)
  {
    forall r: real, extent: nat | LEAST_RATIO <= r <= 1.0 && extent <= U16_MAX
      ensures ((extent + 1) as real * r).Floor <= RoundHalfUp(r, extent) <= Ceiling((extent + 1) as real * r)
    {
      WithinOne((extent + 1) as real * r, RoundHalfUp(r, extent));
    }
  }

  // ----- what is shared out -----

  /** Every split of the tree has this direction. */
  ghost predicate Uniform(node: Node, dir: Direction) {
    node.Split? ==> node.dir == dir && Uniform(node.first, dir) && Uniform(node.second, dir)
  }

  function Extent(r: Rect, dir: Direction): u16 {
    if dir == Horizontal then r.w else r.h
  }

  /** The clamp in `FirstExtent` passes its argument through at every split, and no split runs out of room. */
  ghost predicate ClampIdle(node: Node, area: Rect, round: Rounding) {
    match node
    case Leaf(_) => true
    case Split(dir, ratio, first, second) =>
      var extent := Extent(area, dir);
      var (a1, a2) := SplitArea(area, dir, ratio, round);
      && extent >= 3 && ratio.Finite?
      && 1 <= round(ratio.value, extent) - 1 <= extent - 2
      && ClampIdle(first, a1, round) && ClampIdle(second, a2, round)
  }

  /** `Times` for a share that need not be whole. */
  function TimesReal(p: real, k: nat): real {
    if k == 0 then 0.0 else p + TimesReal(p, k - 1)
  }

  lemma {:induction false} TimesRealIs(p: real, k: nat)
    ensures TimesReal(p, k) == p * k as real
  {
    if k > 0 {
      TimesRealIs(p, k - 1);
      assert p * k as real == p + p * (k - 1) as real;
    }
  }

  /** Copies of a larger number add up to more, whole or not. */
  lemma {:induction false} TimesGrows(m: int, p: real, k: nat)
    requires k >= 1
    ensures m as real < p ==> Times(m, k) as real < TimesReal(p, k)
    ensures p < m as real ==> TimesReal(p, k) < Times(m, k) as real
  {
    if k > 1 {
      TimesGrows(m, p, k - 1);
    }
  }

  lemma {:induction false} AtLeastTwo(q: int, a: nat)
    requires q >= 2 && a >= 1
    ensures Times(q, a) >= 2
  {
    if a > 1 {
      AtLeastTwo(q, a - 1);
    }
  }

  /** An integer next to p = num / k lies between all integer bounds of p. */
  lemma Between(p: real, k: nat, num: int, lo: int, hi: int, share: int)
    requires k >= 1 && TimesReal(p, k) == num as real && Times(lo, k) <= num <= Times(hi, k)
    requires p.Floor <= share <= Ceiling(p)
    ensures lo <= share <= hi
  {
    TimesGrows(lo, p, k);
    TimesGrows(hi, p, k);
  }

  /** The bounds that q and q + 1 slots a leaf put on `a` leaves' share of the slots, and on the other side's. */
  lemma ExactBounds(slots: nat, a: nat, b: nat, q: nat)
    requires q * (a + b) <= slots <= (q + 1) * (a + b)
    ensures q * a * (a + b) <= slots * a <= (q + 1) * a * (a + b)
    ensures (slots - (q + 1) * b) * (a + b) <= slots * a <= (slots - q * b) * (a + b)
  {
    Scaled(q, slots, a, a + b);
    Scaled(q, slots, b, a + b);
    Scaled(q + 1, slots, a, a + b);
    Scaled(q + 1, slots, b, a + b);
    Remainder(slots, a, b, q * b);
    Remainder(slots, a, b, (q + 1) * b);
  }

  lemma Scaled(q: int, slots: int, c: nat, k: nat)
    ensures q * k <= slots ==> q * c * k <= slots * c
    ensures slots <= q * k ==> slots * c <= q * c * k
  {
    assert q * c * k == (q * k) * c;
    if q * k <= slots {
      Scale(q * k, slots, c);
    }
    if slots <= q * k {
      Scale(slots, q * k, c);
    }
  }

  lemma Remainder(slots: int, a: nat, b: nat, part: int)
    ensures (slots - part) * (a + b) == slots * a + slots * b - part * (a + b)
  {
  }

  lemma Scale(m: int, n: int, c: nat)
    requires m <= n
    ensures m * c <= n * c
  {
  }

  lemma ExactTimes(slots: nat, a: nat, b: nat, q: nat)
    requires Times(q, a + b) <= slots <= Times(q + 1, a + b)
    ensures Times(Times(q, a), a + b) <= Times(slots, a) <= Times(Times(q + 1, a), a + b)
    ensures Times(slots - Times(q + 1, b), a + b) <= Times(slots, a) <= Times(slots - Times(q, b), a + b)
  {
    TimesIs(q, a + b);
    TimesIs(q + 1, a + b);
    TimesIs(q, a);
    TimesIs(q + 1, a);
    TimesIs(q, b);
    TimesIs(q + 1, b);
    TimesIs(slots, a);
    TimesIs(q * a, a + b);
    TimesIs((q + 1) * a, a + b);
    TimesIs(slots - (q + 1) * b, a + b);
    TimesIs(slots - q * b, a + b);
    ExactBounds(slots, a, b, q);
  }

  /** Handing `a` of `a + b` leaves their share p of the slots leaves both sides between `q` and `q + 1` slots a leaf. */
  lemma ShareBounds(slots: nat, a: nat, b: nat, q: nat, p: real, share: int)
    requires a >= 1 && b >= 1 && q >= 2 && Times(q, a + b) <= slots <= Times(q + 1, a + b)
    requires TimesReal(p, a + b) == Times(slots, a) as real
    requires p.Floor <= share <= Ceiling(p)
    ensures 2 <= share <= slots - 2
    ensures Times(q, a) <= share <= Times(q + 1, a)
    ensures Times(q, b) <= slots - share <= Times(q + 1, b)
  {
    ExactTimes(slots, a, b, q);
    Between(p, a + b, Times(slots, a), Times(q, a), Times(q + 1, a), share);
    Between(p, a + b, Times(slots, a), slots - Times(q + 1, b), slots - Times(q, b), share);
    AtLeastTwo(q, a);
    AtLeastTwo(q, b);
  }

  /** `k` leaves that take `a / k` of the slots each take `a` times all of them. */
  lemma Quotients(slots: nat, a: nat, k: nat, ratio: real, p: real)
    requires k >= 1 && ratio == a as real / k as real && p == slots as real * ratio
    ensures TimesReal(p, k) == Times(slots, a) as real
  {
    assert ratio * k as real == a as real;
    Regrouped(slots as real, ratio, k as real, a as real, p);
    InReals(slots, a);
    TimesRealIs(p, k);
    TimesIs(slots, a);
  }

  lemma InReals(x: nat, y: nat)
    ensures (x * y) as real == x as real * y as real
  {
  }

  lemma Regrouped(slots: real, ratio: real, k: real, a: real, p: real)
    requires p == slots * ratio && ratio * k == a
    ensures p * k == slots * a
  {
  }

  lemma RatioInRange(a: nat, k: nat, ratio: real)
    requires k <= 65536 && 1 <= a <= k && ratio == a as real / k as real
    ensures LEAST_RATIO <= ratio <= 1.0
  {
    assert ratio * k as real == a as real;
    AtMostOne(a as real, k as real, ratio);
    AtLeastLeast(a as real, k as real, ratio);
  }

  lemma AtMostOne(a: real, n: real, ratio: real)
    requires 1.0 <= a <= n && ratio * n == a
    ensures ratio <= 1.0
  {
    assert (ratio - 1.0) * n == a - n;
    assert ratio > 1.0 ==> (ratio - 1.0) * n > 0.0;
  }

  lemma AtLeastLeast(a: real, n: real, ratio: real)
    requires 1.0 <= a <= n <= 65536.0 && ratio * n == a
    ensures LEAST_RATIO <= ratio
  {
    assert ratio < 0.0 ==> ratio * n < 0.0;
    AtMost65536(ratio, n, a);
  }

  lemma {:induction false} TimesAtLeast(q: int, k: nat)
    requires q >= 1
    ensures Times(q, k) >= k
  {
    if k > 0 {
      TimesAtLeast(q, k - 1);
    }
  }

  lemma RoundedNearby(round: Rounding, ratio: real, extent: nat, p: real)
    requires RoundsNearby(round) && LEAST_RATIO <= ratio <= 1.0 && extent <= U16_MAX && p == (extent + 1) as real * ratio
    ensures p.Floor <= round(ratio, extent) <= Ceiling(p)
  {
    assert NearbyAt(round, ratio, extent);
  }

  /** The rounded share of a split under the invariant. */
  lemma FairShare(a: nat, b: nat, ratio: real, extent: nat, round: Rounding, q: nat)
    requires RoundsNearby(round) && q >= 2 && a >= 1 && b >= 1 && ratio == a as real / (a + b) as real
    requires extent <= U16_MAX && Times(q, a + b) <= extent + 1 <= Times(q + 1, a + b)
    ensures 2 <= round(ratio, extent) <= extent - 1
    ensures Times(q, a) <= round(ratio, extent) <= Times(q + 1, a)
    ensures Times(q, b) <= extent + 1 - round(ratio, extent) <= Times(q + 1, b)
  {
    var p := (extent + 1) as real * ratio;
    TimesAtLeast(q, a + b);
    RatioInRange(a, a + b, ratio);
    Quotients(extent + 1, a, a + b, ratio, p);
    RoundedNearby(round, ratio, extent, p);
    ShareBounds(extent + 1, a, b, q, p, round(ratio, extent));
  }

  /** A rounded share that leaves room on both sides is what the first child gets, separator included. */
  lemma ShareIsUsed(area: Rect, dir: Direction, ratio: real, round: Rounding)
    requires area.Fits() && 2 <= round(ratio, Extent(area, dir)) <= Extent(area, dir) - 1
    ensures var (a1, a2) := SplitArea(area, dir, Finite(ratio), round);
            && Extent(a1, dir) + 1 == round(ratio, Extent(area, dir))
            && Extent(a2, dir) + 1 == Extent(area, dir) + 1 - round(ratio, Extent(area, dir))
  {
  }

  /** One split under the invariant: the rounded share is used unclamped, and the invariant holds on both sides. */
  lemma FairSplit(a: nat, b: nat, dir: Direction, ratio: real, area: Rect, round: Rounding, q: nat)
    requires area.Fits() && RoundsNearby(round) && q >= 2 && a >= 1 && b >= 1
    requires ratio == a as real / (a + b) as real
    requires Times(q, a + b) <= Extent(area, dir) + 1 <= Times(q + 1, a + b)
    ensures var (a1, a2) := SplitArea(area, dir, Finite(ratio), round);
            && Extent(area, dir) >= 3
            && 1 <= round(ratio, Extent(area, dir)) - 1 <= Extent(area, dir) - 2
            && Times(q, a) <= Extent(a1, dir) + 1 <= Times(q + 1, a)
            && Times(q, b) <= Extent(a2, dir) + 1 <= Times(q + 1, b)
  {
    FairShare(a, b, ratio, Extent(area, dir), round, q);
    ShareIsUsed(area, dir, ratio, round);
  }

  /** Every rectangle has q - 1 or q cells along the direction. */
  ghost predicate Even(placed: seq<Placed>, dir: Direction, q: nat) {
    forall i :: 0 <= i < |placed| ==> q - 1 <= Extent(placed[i].rect, dir) <= q
  }

  /** No rectangle is empty along the direction, and no two differ by more than one cell. */
  ghost predicate Fair(placed: seq<Placed>, dir: Direction) {
    forall i, j :: 0 <= i < |placed| && 0 <= j < |placed| ==>
      1 <= Extent(placed[i].rect, dir) && Extent(placed[i].rect, dir) <= Extent(placed[j].rect, dir) + 1
  }

  /** Every split has the ratio `EqualizeNode` gives it. */
  ghost predicate Equalized(node: Node) {
    match node
    case Leaf(_) => true
    case Split(_, ratio, first, second) =>
      CountPositive(node);
      && ratio == Finite(CountLeaves(first) as real / CountLeaves(node) as real)
      && Equalized(first) && Equalized(second)
  }

  lemma {:induction false} EqualizeEqualizes(node: Node, dir: Direction)
    requires Uniform(node, dir)
    ensures CountLeaves(EqualizeNode(node)) == CountLeaves(node)
    ensures Uniform(EqualizeNode(node), dir) && Equalized(EqualizeNode(node))
  {
    match node
    case Leaf(_) =>
    case Split(_, _, first, second) =>
      EqualizeEqualizes(first, dir);
      EqualizeEqualizes(second, dir);
  }

  /** The key invariant: with between q and q + 1 slots a leaf, every leaf ends up with q - 1 or q cells. */
  lemma {:induction false} FairSlots(node: Node, dir: Direction, area: Rect, round: Rounding, q: nat)
    requires area.Fits() && Uniform(node, dir) && Equalized(node) && RoundsNearby(round) && q >= 2
    requires Times(q, CountLeaves(node)) <= Extent(area, dir) + 1 <= Times(q + 1, CountLeaves(node))
    ensures ClampIdle(node, area, round)
    ensures Even(Leaves(node, area, round), dir, q)
  {
    match node
    case Leaf(_) =>
      assert Times(q, 1) == q + Times(q, 0);
    case Split(_, ratio, first, second) =>
      CountPositive(first);
      CountPositive(second);
      FairSplit(CountLeaves(first), CountLeaves(second), dir, ratio.value, area, round, q);
      var (a1, a2) := SplitArea(area, dir, ratio, round);
      FairSlots(first, dir, a1, round, q);
      FairSlots(second, dir, a2, round, q);
      EqualizedSplit(dir, ratio.value, first, second, area, round, q);
  }

  lemma EqualizedSplit(dir: Direction, ratio: real, first: Node, second: Node, area: Rect, round: Rounding, q: nat)
    requires var (a1, a2) := SplitArea(area, dir, Finite(ratio), round);
             && Extent(area, dir) >= 3
             && 1 <= round(ratio, Extent(area, dir)) - 1 <= Extent(area, dir) - 2
             && ClampIdle(first, a1, round) && Even(Leaves(first, a1, round), dir, q)
             && ClampIdle(second, a2, round) && Even(Leaves(second, a2, round), dir, q)
    ensures ClampIdle(Split(dir, Finite(ratio), first, second), area, round)
    ensures Even(Leaves(Split(dir, Finite(ratio), first, second), area, round), dir, q)
  {
  }

  /** Fair division: given two cells a pane less one, equalized extents differ by at most one and nothing is clamped. */
  lemma {:induction false} FairDivision(node: Node, dir: Direction, inner: Rect, round: Rounding)
    requires Uniform(node, dir) && RoundsNearby(round)
    requires Extent(inner.Clipped(), dir) >= 2 * CountLeaves(node) - 1
    ensures ClampIdle(EqualizeNode(node), inner.Clipped(), round)
    ensures Fair(Leaves(EqualizeNode(node), inner.Clipped(), round), dir)
  {
    CountPositive(node);
    var q := Quotient(Extent(inner.Clipped(), dir) + 1, CountLeaves(node));
    EqualizeEqualizes(node, dir);
    FairSlots(EqualizeNode(node), dir, inner.Clipped(), round, q);
  }

  /** And so it is in single precision. */
  lemma {:induction false} FairInSinglePrecision(node: Node, dir: Direction, inner: Rect, round: Rounding)
    requires Uniform(node, dir) && SinglePrecision(round)
    requires Extent(inner.Clipped(), dir) >= 2 * CountLeaves(node) - 1
    ensures ClampIdle(EqualizeNode(node), inner.Clipped(), round)
    ensures Fair(Leaves(EqualizeNode(node), inner.Clipped(), round), dir)
  {
    SinglePrecisionIsNearby(round);
    FairDivision(node, dir, inner, round);
  }

  lemma Quotient(slots: nat, n: nat) returns (q: nat)
    requires n >= 1 && slots >= 2 * n
    ensures q >= 2 && Times(q, n) <= slots <= Times(q + 1, n)
  {
    q := slots / n;
    if q <= 1 {
      Scale(q + 1, 2, n);
    }
    TimesIs(q, n);
    TimesIs(q + 1, n);
  }
}