/** Trees built from a grid size or from a textual layout specification. */
module LayoutSpec {
  import opened Prelude
  import opened LayoutTree
  import opened Geometry
  import opened FairDivision

  const MAX_PANES := 100

  /** The ids are from, from + 1, ..., from + n - 1. */
  ghost predicate Numbered(ids: seq<nat>, from: nat, n: nat) {
    |ids| == n && forall i :: 0 <= i < n ==> ids[i] == from + i
  }

  // ----- builders; each takes the next id and returns the advanced one -----

  function BuildRow(cols: nat, nextId: nat): (Node, nat)
    requires cols >= 1
  {
    if cols == 1 then (Leaf(nextId), nextId + 1)
    else
      var (rest, next) := BuildRow(cols - 1, nextId + 1);
      (Split(Horizontal, Finite(1.0 / cols as real), Leaf(nextId), rest), next)
  }

  function BuildGrid(rows: nat, cols: nat, nextId: nat): (Node, nat)
    requires rows >= 1 && cols >= 1
    decreases rows
  {
    if rows == 1 then BuildRow(cols, nextId)
    else
      var (top, next) := BuildRow(cols, nextId);
      var (rest, last) := BuildGrid(rows - 1, cols, next);
      (Split(Vertical, Finite(1.0 / rows as real), top, rest), last)
  }

  function FromGrid(rows: nat, cols: nat): LayoutState {
    var (root, next) := BuildGrid(Max(rows, 1), Max(cols, 1), 0);
    LayoutState(root, next)
  }

  function Sum(weights: seq<nat>): nat {
    if weights == [] then 0 else weights[0] + Sum(weights[1..])
  }

  predicate AllWeights(weights: seq<nat>) {
    forall i :: 0 <= i < |weights| ==> 1 <= weights[i] <= 9
  }

  function BuildWeightedRow(weights: seq<nat>, total: nat, nextId: nat): (Node, nat)
    requires weights != [] && total == Sum(weights) && AllWeights(weights)
  {
    if |weights| == 1 then (Leaf(nextId), nextId + 1)
    else
      var (rest, next) := BuildWeightedRow(weights[1..], total - weights[0], nextId + 1);
      (Split(Horizontal, Finite(weights[0] as real / total as real), Leaf(nextId), rest), next)
  }

  function BuildWeightedColumn(rows: seq<Node>, count: nat): Node
    requires rows != [] && count == |rows|
  {
    if |rows| == 1 then rows[0]
    else Split(Vertical, Finite(1.0 / count as real), rows[0], BuildWeightedColumn(rows[1..], count - 1))
  }

  // ----- parsing -----

  datatype SpecError =
    | TooManyPanes(count: nat)
    | InvalidWeight(text: string)
    | WeightOutOfRange(text: string)

  /** `str::parse::<u32>`: digits with an optional leading plus sign. */
  function ParseU32(s: string): Option<nat> {
    var digits := if |s| > 0 && s[0] == '+' then s[1..] else s;
    if digits == [] then None else Decimal(CodesOf(digits), 0)
  }

  function ParseWeight(text: string): (r: Result<nat, SpecError>)
    ensures r.Ok? ==> 1 <= r.value <= 9
  {
    match ParseU32(Trim(text))
    case None => Err(InvalidWeight(text))
    case Some(w) => if 1 <= w <= 9 then Ok(w) else Err(WeightOutOfRange(text))
  }

  function ParseWeights(texts: seq<string>): (r: Result<seq<nat>, SpecError>)
    ensures r.Ok? ==> |r.value| == |texts| && AllWeights(r.value)
  {
    if texts == [] then Ok([])
    else
      match ParseWeight(texts[0])
      case Err(e) => Err(e)
      case Ok(w) =>
        match ParseWeights(texts[1..])
        case Err(e) => Err(e)
        case Ok(ws) => Ok([w] + ws)
  }

  /** The rows' trees in order, stopping at the first row that does not parse. */
  function BuildRows(rows: seq<string>, nextId: nat): (r: Result<(seq<Node>, nat), SpecError>)
    ensures r.Ok? ==> |r.value.0| == |rows|
    decreases |rows|
  {
    if rows == [] then Ok(([], nextId))
    else
      match ParseWeights(SplitOn(rows[0], ':'))
      case Err(e) => Err(e)
      case Ok(ws) =>
        var (node, next) := BuildWeightedRow(ws, Sum(ws), nextId);
        match BuildRows(rows[1..], next)
        case Err(e) => Err(e)
        case Ok((nodes, last)) => Ok(([node] + nodes, last))
  }

  /** The spec a named preset stands for; `quad` is a grid and has none. */
  function Resolve(name: string): string {
    if name == "ide" then "7:3/1:1"
    else if name == "dev" then "7:3"
    else if name == "monitor" then "1:1:1"
    else if name == "stack" then "1/1/1"
    else if name == "main" then "6:4/1"
    else if name == "trio" then "1/1:1"
    else name
  }

  function FromSpec(spec: string): Result<LayoutState, SpecError> {
    if Trim(spec) == "quad" then Ok(FromGrid(2, 2))
    else FromRows(Resolve(Trim(spec)))
  }

  function FromRows(resolved: string): Result<LayoutState, SpecError> {
    var panes := CountOf(resolved, '/') + CountOf(resolved, ':') + 1;
    if panes > MAX_PANES then Err(TooManyPanes(panes))
    else
      var rows := SplitOn(resolved, '/');
      match BuildRows(rows, 0)
      case Err(e) => Err(e)
      case Ok((nodes, next)) =>
        if next > MAX_PANES then Err(TooManyPanes(next))
        else Ok(LayoutState(BuildWeightedColumn(nodes, |nodes|), next))
  }

  // ----- ids -----

  lemma {:induction false} RowIds(cols: nat, nextId: nat)
    requires cols >= 1
    ensures var (node, next) := BuildRow(cols, nextId); Numbered(PaneIds(node), nextId, cols) && next == nextId + cols
  {
    if cols > 1 {
      RowIds(cols - 1, nextId + 1);
    }
  }

  lemma {:induction false} GridIds(rows: nat, cols: nat, nextId: nat)
    requires rows >= 1 && cols >= 1
    ensures var (node, next) := BuildGrid(rows, cols, nextId);
            Numbered(PaneIds(node), nextId, rows * cols) && next == nextId + rows * cols
    decreases rows
  {
    RowIds(cols, nextId);
    if rows > 1 {
      GridIds(rows - 1, cols, nextId + cols);
      assert rows * cols == cols + (rows - 1) * cols;
    }
  }

  lemma {:induction false} WeightedRowIds(weights: seq<nat>, nextId: nat)
    requires weights != [] && AllWeights(weights)
    ensures var (node, next) := BuildWeightedRow(weights, Sum(weights), nextId);
            Numbered(PaneIds(node), nextId, |weights|) && next == nextId + |weights|
  {
    if |weights| > 1 {
      WeightedRowIds(weights[1..], nextId + 1);
    }
  }

  /** The ids of several trees one after the other. */
  ghost function IdsOf(nodes: seq<Node>): seq<nat> {
    if nodes == [] then [] else PaneIds(nodes[0]) + IdsOf(nodes[1..])
  }

  /** Pieces of all the rows: one for every column of every row. */
  function Columns(rows: seq<string>): seq<string> {
    if rows == [] then [] else SplitOn(rows[0], ':') + Columns(rows[1..])
  }

  /** The first row's tree, and the others'. */
  lemma FirstRow(rows: seq<string>, nextId: nat) returns (node: Node, others: seq<Node>, last: nat)
    requires rows != [] && BuildRows(rows, nextId).Ok?
    ensures Numbered(PaneIds(node), nextId, |SplitOn(rows[0], ':')|)
    ensures BuildRows(rows[1..], nextId + |SplitOn(rows[0], ':')|) == Ok((others, last))
    ensures BuildRows(rows, nextId) == Ok(([node] + others, last))
  {
    var ws := ParseWeights(SplitOn(rows[0], ':')).value;
    var next;
    node, next := FirstTree(ws, nextId);
    others, last := BuildRows(rows[1..], next).value.0, BuildRows(rows[1..], next).value.1;
  }

  lemma FirstTree(weights: seq<nat>, nextId: nat) returns (node: Node, next: nat)
    requires weights != [] && AllWeights(weights)
    ensures (node, next) == BuildWeightedRow(weights, Sum(weights), nextId)
    ensures Numbered(PaneIds(node), nextId, |weights|) && next == nextId + |weights|
  {
    node, next := BuildWeightedRow(weights, Sum(weights), nextId).0, BuildWeightedRow(weights, Sum(weights), nextId).1;
    WeightedRowIds(weights, nextId);
  }

  lemma IdsInFront(node: Node, others: seq<Node>, from: nat, n: nat, m: nat)
    requires Numbered(PaneIds(node), from, n) && Numbered(IdsOf(others), from + n, m)
    ensures Numbered(IdsOf([node] + others), from, n + m)
  {
    assert ([node] + others)[1..] == others;
  }

  lemma {:induction false} BuiltIds(rows: seq<string>, nextId: nat, nodes: seq<Node>, last: nat)
    requires BuildRows(rows, nextId) == Ok((nodes, last))
    ensures Numbered(IdsOf(nodes), nextId, |Columns(rows)|) && last == nextId + |Columns(rows)|
    decreases |rows|
  {
    if rows != [] {
      var n := |SplitOn(rows[0], ':')|;
      var node, others, end := FirstRow(rows, nextId);
      BuiltIds(rows[1..], nextId + n, others, end);
      IdsInFront(node, others, nextId, n, |Columns(rows[1..])|);
    }
  }

  /** The rows' trees number their panes from `nextId` on, one for every column, and the next id follows. */
  lemma RowsIds(rows: seq<string>, nextId: nat)
    requires BuildRows(rows, nextId).Ok?
    ensures Numbered(IdsOf(BuildRows(rows, nextId).value.0), nextId, |Columns(rows)|)
    ensures BuildRows(rows, nextId).value.1 == nextId + |Columns(rows)|
  {
    BuiltIds(rows, nextId, BuildRows(rows, nextId).value.0, BuildRows(rows, nextId).value.1);
  }

  lemma {:induction false} ColumnIds(nodes: seq<Node>)
    requires nodes != []
    ensures PaneIds(BuildWeightedColumn(nodes, |nodes|)) == IdsOf(nodes)
  {
    if |nodes| > 1 {
      ColumnIds(nodes[1..]);
    } else {
      assert IdsOf(nodes[1..]) == [];
    }
  }

  /** Columns are counted by the separators. */
  lemma {:induction false} ColumnsCount(rows: seq<string>)
    requires rows != []
    ensures |Columns(rows)| == |rows| + CountOf(JoinWith(rows, '/'), ':')
  {
    SplitOnSound(rows[0], ':');
    if |rows| == 1 {
      assert Columns(rows[1..]) == [];
    } else {
      ColumnsCount(rows[1..]);
      CountOfAppend(rows[0] + ['/'], JoinWith(rows[1..], '/'), ':');
      CountOfAppend(rows[0], ['/'], ':');
    }
  }

  lemma {:induction false} CountOfAppend(s: string, t: string, c: char)
    ensures CountOf(s + t, c) == CountOf(s, c) + CountOf(t, c)
  {
    if s == [] {
      assert s + t == t;
    } else {
      assert (s + t)[1..] == s[1..] + t;
      CountOfAppend(s[1..], t, c);
    }
  }

  /** Every accepted spec numbers its panes 0, 1, 2, ... in tree order, at most 100 of them. */
  lemma {:induction false} SpecNumbersPanes(spec: string)
    ensures FromSpec(spec).Ok? ==>
              var layout := FromSpec(spec).value;
              Numbered(PaneIds(layout.root), 0, layout.nextId) && 1 <= layout.nextId <= MAX_PANES
  {
    GridIds(2, 2, 0);
    if Trim(spec) != "quad" && FromSpec(spec).Ok? {
      var rows := SplitOn(Resolve(Trim(spec)), '/');
      RowsIds(rows, 0);
      ColumnIds(BuildRows(rows, 0).value.0);
    }
  }

  // ----- weights are relative shares -----

  lemma {:induction false} RowCount(weights: seq<nat>, nextId: nat)
    requires weights != [] && AllWeights(weights)
    ensures CountLeaves(BuildWeightedRow(weights, Sum(weights), nextId).0) == |weights|
  {
    WeightedRowIds(weights, nextId);
    CountIsLength(BuildWeightedRow(weights, Sum(weights), nextId).0);
  }

  /** In a row every column gets its weight's fraction of the total. */
  lemma {:induction false} RowShares(weights: seq<nat>, nextId: nat, i: nat)
    requires i < |weights| && AllWeights(weights)
    ensures CountLeaves(BuildWeightedRow(weights, Sum(weights), nextId).0) == |weights|
    ensures IsPart(BuildWeightedRow(weights, Sum(weights), nextId).0, i, Sum(weights) as real, weights[i] as real)
  {
    RowCount(weights, nextId);
    var node := BuildWeightedRow(weights, Sum(weights), nextId).0;
    if |weights| == 1 {
      assert Sum(weights[1..]) == 0;
    } else {
      if i > 0 {
        RowShares(weights[1..], nextId + 1, i - 1);
      }
      PartOfSplit(node, i, weights[0] as real, Sum(weights) as real, weights[i] as real);
    }
  }

  /** Leaves of the rows before row `j`. */
  function Offset(nodes: seq<Node>, j: nat): nat
    requires j <= |nodes|
  {
    if j == 0 then 0 else CountLeaves(nodes[0]) + Offset(nodes[1..], j - 1)
  }

  /** Rows share the height equally, whatever their columns weigh. */
  lemma {:induction false} ColumnShares(nodes: seq<Node>, j: nat, i: nat)
    requires j < |nodes| && i < CountLeaves(nodes[j])
    ensures Offset(nodes, j) + i < CountLeaves(BuildWeightedColumn(nodes, |nodes|))
    ensures IsPart(BuildWeightedColumn(nodes, |nodes|), Offset(nodes, j) + i, |nodes| as real, Share(nodes[j], i))
  {
    var n := |nodes|;
    if n > 1 {
      if j > 0 {
        ColumnShares(nodes[1..], j - 1, i);
      }
      PartOfSplit(BuildWeightedColumn(nodes, n), Offset(nodes, j) + i, 1.0, n as real, Share(nodes[j], i));
    }
  }

  // ----- acceptance -----

  /** A digit from 1 to 9, maybe with zeros, a plus sign and white space in front, and white space behind. */
  ghost predicate SpellsWeight(text: string, before: string, sign: string, zeros: string, digit: char, after: string) {
    && text == before + (sign + (zeros + [digit])) + after && AllWhite(before) && AllWhite(after)
    && (sign == "" || sign == "+") && (forall i :: 0 <= i < |zeros| ==> zeros[i] == '0') && '1' <= digit <= '9'
  }

  ghost predicate IsWeight(text: string) {
    exists before, sign, zeros, digit, after :: SpellsWeight(text, before, sign, zeros, digit, after)
  }

  lemma {:induction false} ZerosCountNothing(zeros: string, digit: char)
    requires (forall i :: 0 <= i < |zeros| ==> zeros[i] == '0') && '0' <= digit <= '9'
    ensures Decimal(CodesOf(zeros + [digit]), 0) == Some(digit as int - '0' as int)
  {
    if zeros == "" {
      assert zeros + [digit] == [digit];
      assert CodesOf([digit]) == [digit as nat];
      assert Decimal([digit as nat], 0) == Decimal([], digit as int - '0' as int);
    } else {
      assert (zeros + [digit])[1..] == zeros[1..] + [digit];
      ZerosCountNothing(zeros[1..], digit);
    }
  }

  lemma {:induction false} DecimalGrows(s: seq<nat>, acc: nat)
    requires s != [] && Decimal(s, acc).Some?
    ensures Decimal(s, acc).value >= 10 * acc
  {
    var next := acc * 10 + (s[0] - 0x30);
    if |s| > 1 {
      DecimalGrows(s[1..], next);
    } else {
      assert Decimal(s[1..], next) == Some(next);
    }
  }

  /** A number below ten is zeros and one digit. */
  lemma {:induction false} SmallNumber(s: string) returns (zeros: string, digit: char)
    requires s != "" && Decimal(CodesOf(s), 0).Some? && Decimal(CodesOf(s), 0).value <= 9
    ensures s == zeros + [digit] && (forall i :: 0 <= i < |zeros| ==> zeros[i] == '0')
    ensures '0' <= digit <= '9' && Decimal(CodesOf(s), 0) == Some(digit as int - '0' as int)
  {
    var v := s[0] as int - '0' as int;
    assert CodesOf(s)[1..] == CodesOf(s[1..]);
    if |s| == 1 {
      zeros, digit := "", s[0];
      assert CodesOf(s[1..]) == [];
    } else {
      assert CodesOf(s[1..]) != [];
      DecimalGrows(CodesOf(s[1..]), v);
      zeros, digit := SmallNumber(s[1..]);
      zeros := [s[0]] + zeros;
    }
  }

  lemma ReadsSpelled(text: string, before: string, sign: string, zeros: string, digit: char, after: string)
    requires SpellsWeight(text, before, sign, zeros, digit, after)
    ensures ParseWeight(text) == Ok(digit as int - '0' as int)
  {
    var digits := zeros + [digit];
    var core := sign + digits;
    assert core[0] == if sign == "" then digits[0] else '+';
    assert digits[0] == if zeros == "" then digit else zeros[0];
    assert core[|core| - 1] == digit;
    TrimsTo(before, core, after);
    assert sign == "" ==> core == digits;
    assert sign == "+" ==> core[1..] == digits;
    ZerosCountNothing(zeros, digit);
  }

  lemma SpelledIfRead(text: string)
    requires ParseWeight(text).Ok?
    ensures IsWeight(text)
  {
    var before, after := TrimSplits(text);
    var core := Trim(text);
    var sign := if |core| > 0 && core[0] == '+' then "+" else "";
    var digits := if |core| > 0 && core[0] == '+' then core[1..] else core;
    var zeros, digit := SmallNumber(digits);
    assert core == sign + (zeros + [digit]);
    assert SpellsWeight(text, before, sign, zeros, digit, after);
  }

  /** A weight is read exactly when one is spelled, and as the digit it ends in. */
  lemma WeightIsDigit(text: string)
    ensures ParseWeight(text).Ok? <==> IsWeight(text)
    ensures forall before, sign, zeros, digit, after :: SpellsWeight(text, before, sign, zeros, digit, after) ==>
              ParseWeight(text) == Ok(digit as int - '0' as int)
  {
    forall before, sign, zeros, digit, after | SpellsWeight(text, before, sign, zeros, digit, after)
      ensures ParseWeight(text) == Ok(digit as int - '0' as int)
    {
      ReadsSpelled(text, before, sign, zeros, digit, after);
    }
    if ParseWeight(text).Ok? {
      SpelledIfRead(text);
    }
  }

  lemma {:induction false} WeightsAccept(texts: seq<string>)
    ensures ParseWeights(texts).Ok? <==> forall t :: t in texts ==> IsWeight(t)
  {
    if texts != [] {
      WeightsAccept(texts[1..]);
      WeightIsDigit(texts[0]);
      if ParseWeight(texts[0]).Err? {
        assert texts[0] in texts && !IsWeight(texts[0]);
      } else if ParseWeights(texts[1..]).Err? {
        var t :| t in texts[1..] && !IsWeight(t);
        assert t in texts;
      } else {
        assert IsWeight(texts[0]);
        assert forall t :: t in texts ==> t == texts[0] || t in texts[1..];
      }
    }
  }

  lemma {:induction false} RowsAccept(rows: seq<string>, nextId: nat)
    ensures BuildRows(rows, nextId).Ok? <==> forall t :: t in Columns(rows) ==> IsWeight(t)
    decreases |rows|
  {
    if rows != [] {
      var pieces := SplitOn(rows[0], ':');
      WeightsAccept(pieces);
      if ParseWeights(pieces).Ok? {
        var ws := ParseWeights(pieces).value;
        RowsAccept(rows[1..], BuildWeightedRow(ws, Sum(ws), nextId).1);
      } else {
        var t :| t in pieces && !IsWeight(t);
        assert t in Columns(rows);
      }
    }
  }

  /** The bytes that separate rows and columns, counted before anything is built, are one fewer than the columns. */
  lemma SeparatorsCount(spec: string)
    ensures CountOf(spec, '/') + CountOf(spec, ':') + 1 == |Columns(SplitOn(spec, '/'))|
  {
    SplitOnSound(spec, '/');
    ColumnsCount(SplitOn(spec, '/'));
  }

  /** A spec that is no preset is accepted exactly when it names at most 100 columns, each with a weight of 1 to 9. */
  lemma {:induction false} SpecAccepts(spec: string)
    requires Trim(spec) != "quad" && Resolve(Trim(spec)) == Trim(spec)
    ensures var columns := Columns(SplitOn(Trim(spec), '/'));
            FromSpec(spec).Ok? <==> |columns| <= MAX_PANES && forall t :: t in columns ==> IsWeight(t)
  {
    var rows := SplitOn(Trim(spec), '/');
    SeparatorsCount(Trim(spec));
    RowsAccept(rows, 0);
    if BuildRows(rows, 0).Ok? {
      RowsIds(rows, 0);
    }
  }

  // ----- grids are already equal -----

  lemma {:induction false} RowIsEqualized(cols: nat, nextId: nat)
    requires cols >= 1
    ensures var node := BuildRow(cols, nextId).0;
            EqualizeNode(node) == node && CountLeaves(node) == cols && Uniform(node, Horizontal)
  {
    if cols > 1 {
      RowIsEqualized(cols - 1, nextId + 1);
    }
  }

  lemma {:induction false} GridIsEqualized(rows: nat, cols: nat, nextId: nat)
    requires rows >= 1 && cols >= 1
    ensures var node := BuildGrid(rows, cols, nextId).0; EqualizeNode(node) == node && CountLeaves(node) == rows * cols
    decreases rows
  {
    RowIsEqualized(cols, nextId);
    if rows > 1 {
      GridIsEqualized(rows - 1, cols, BuildRow(cols, nextId).1);
      assert rows * cols == cols + (rows - 1) * cols;
      SameShare(rows, cols);
    }
  }

  lemma SameShare(rows: nat, cols: nat)
    requires rows >= 1 && cols >= 1 && rows * cols >= 1
    ensures cols as real / (rows * cols) as real == 1.0 / rows as real
  {
    assert (rows * cols) as real == rows as real * cols as real;
    var r := 1.0 / rows as real;
    assert r * rows as real == 1.0;
    assert r * (rows as real * cols as real) == cols as real;
  }

  // ----- rows lie below one another, their columns side by side -----

  lemma {:induction false} WeightedRowIsUniform(weights: seq<nat>, nextId: nat)
    requires weights != [] && AllWeights(weights)
    ensures Uniform(BuildWeightedRow(weights, Sum(weights), nextId).0, Horizontal)
  {
    if |weights| > 1 {
      WeightedRowIsUniform(weights[1..], nextId + 1);
    }
  }

  /** The panes stand side by side from left to right, each as high as the area; empty ones may be anywhere. */
  ghost predicate SideBySide(leaves: seq<Placed>, area: Rect) {
    && (forall i :: 0 <= i < |leaves| ==> Inside(leaves[i].rect, area))
    && (forall i :: 0 <= i < |leaves| ==> leaves[i].rect.y == area.y && leaves[i].rect.h == area.h)
    && (forall i, j :: 0 <= i < j < |leaves| && leaves[j].rect.w > 0 ==>
          leaves[i].rect.x + leaves[i].rect.w < leaves[j].rect.x)
  }

  lemma {:induction false} HorizontalIsSideBySide(node: Node, area: Rect, round: Rounding)
    requires area.Fits() && Uniform(node, Horizontal)
    ensures SideBySide(Leaves(node, area, round), area)
  {
    match node
    case Leaf(_) =>
    case Split(dir, ratio, first, second) =>
      var (a1, a2) := SplitArea(area, dir, ratio, round);
      HorizontalIsSideBySide(first, a1, round);
      HorizontalIsSideBySide(second, a2, round);
      SplitDivides(area, dir, ratio, round);
      JoinSideBySide(Leaves(first, a1, round), Leaves(second, a2, round), area, a1, a2);
  }

  lemma JoinSideBySide(l1: seq<Placed>, l2: seq<Placed>, area: Rect, a1: Rect, a2: Rect)
    requires SideBySide(l1, a1) && SideBySide(l2, a2) && Divides(area, Horizontal, a1, a2)
    ensures SideBySide(l1 + l2, area)
  {
  }

  /** The columns of a row stand side by side, in their order. */
  lemma RowStandsSideBySide(weights: seq<nat>, nextId: nat, area: Rect, round: Rounding)
    requires weights != [] && AllWeights(weights) && area.Fits()
    ensures SideBySide(Leaves(BuildWeightedRow(weights, Sum(weights), nextId).0, area, round), area)
  {
    WeightedRowIsUniform(weights, nextId);
    HorizontalIsSideBySide(BuildWeightedRow(weights, Sum(weights), nextId).0, area, round);
  }

  /** The bands of the area that so many rows get. */
  function Bands(n: nat, area: Rect, round: Rounding): (bands: seq<Rect>)
    requires n >= 1
    ensures |bands| == n
  {
    if n == 1 then [area]
    else
      var (a1, a2) := SplitArea(area, Vertical, Finite(1.0 / n as real), round);
      [a1] + Bands(n - 1, a2, round)
  }

  /** The leaves of several trees, each in a band of its own. */
  function LeavesIn(nodes: seq<Node>, bands: seq<Rect>, round: Rounding): seq<Placed>
    requires |nodes| == |bands|
  {
    if nodes == [] then [] else Leaves(nodes[0], bands[0], round) + LeavesIn(nodes[1..], bands[1..], round)
  }

  /** Each row has a band of its own. */
  lemma {:induction false} RowsHaveBands(nodes: seq<Node>, area: Rect, round: Rounding)
    requires nodes != []
    ensures Leaves(BuildWeightedColumn(nodes, |nodes|), area, round) == LeavesIn(nodes, Bands(|nodes|, area, round), round)
  {
    var n := |nodes|;
    if n == 1 {
      assert LeavesIn(nodes[1..], Bands(1, area, round)[1..], round) == [];
    } else {
      var (a1, a2) := SplitArea(area, Vertical, Finite(1.0 / n as real), round);
      RowsHaveBands(nodes[1..], a2, round);
      assert Bands(n, area, round)[1..] == Bands(n - 1, a2, round);
    }
  }

  /** The bands lie below one another, each as wide as the area; empty ones may be anywhere. */
  ghost predicate Stacked(bands: seq<Rect>, area: Rect) {
    && (forall i :: 0 <= i < |bands| ==> Inside(bands[i], area) && bands[i].x == area.x && bands[i].w == area.w)
    && (forall i, j :: 0 <= i < j < |bands| && bands[j].h > 0 ==> bands[i].y + bands[i].h < bands[j].y)
  }

  lemma OneMoreBelow(bands: seq<Rect>, area: Rect, a1: Rect, a2: Rect)
    requires Stacked(bands, a2) && Divides(area, Vertical, a1, a2)
    ensures Stacked([a1] + bands, area)
  {
  }

  lemma {:induction false} BandsLieBelow(n: nat, area: Rect, round: Rounding)
    requires n >= 1 && area.Fits()
    ensures Stacked(Bands(n, area, round), area)
  {
    if n > 1 {
      var (a1, a2) := SplitArea(area, Vertical, Finite(1.0 / n as real), round);
      SplitDivides(area, Vertical, Finite(1.0 / n as real), round);
      BandsLieBelow(n - 1, a2, round);
      OneMoreBelow(Bands(n - 1, a2, round), area, a1, a2);
    }
  }

  // ----- grids are divided fairly -----

  /** Splits side by side keep the height. */
  lemma {:induction false} HeightsKept(node: Node, area: Rect, round: Rounding)
    requires area.Fits() && Uniform(node, Horizontal)
    ensures forall i :: var leaves := Leaves(node, area, round); 0 <= i < |leaves| ==> leaves[i].rect.h == area.h
  {
    match node
    case Leaf(_) =>
    case Split(dir, ratio, first, second) =>
      var (a1, a2) := SplitArea(area, dir, ratio, round);
      HeightsKept(first, a1, round);
      HeightsKept(second, a2, round);
  }

  /** Every row of a grid gets the whole width, and shares it fairly. */
  lemma {:induction false} GridWidths(rows: nat, cols: nat, nextId: nat, area: Rect, round: Rounding, q: nat)
    requires rows >= 1 && cols >= 1 && area.Fits() && RoundsNearby(round) && q >= 2
    requires Times(q, cols) <= area.w + 1 <= Times(q + 1, cols)
    ensures Even(Leaves(BuildGrid(rows, cols, nextId).0, area, round), Horizontal, q)
    decreases rows
  {
    var (top, next) := BuildRow(cols, nextId);
    if rows == 1 {
      RowWidths(cols, nextId, area, round, q);
    } else {
      var (a1, a2) := SplitArea(area, Vertical, Finite(1.0 / rows as real), round);
      RowWidths(cols, nextId, a1, round, q);
      GridWidths(rows - 1, cols, next, a2, round, q);
    }
  }

  lemma RowWidths(cols: nat, nextId: nat, area: Rect, round: Rounding, q: nat)
    requires cols >= 1 && area.Fits() && RoundsNearby(round) && q >= 2
    requires Times(q, cols) <= area.w + 1 <= Times(q + 1, cols)
    ensures Even(Leaves(BuildRow(cols, nextId).0, area, round), Horizontal, q)
  {
    RowIsEqualized(cols, nextId);
    EqualizeEqualizes(BuildRow(cols, nextId).0, Horizontal);
    FairSlots(BuildRow(cols, nextId).0, Horizontal, area, round, q);
  }

  /** The rows of a grid share the height fairly. */
  lemma {:induction false} GridHeights(rows: nat, cols: nat, nextId: nat, area: Rect, round: Rounding, q: nat)
    requires rows >= 1 && cols >= 1 && area.Fits() && RoundsNearby(round) && q >= 2
    requires Times(q, rows) <= area.h + 1 <= Times(q + 1, rows)
    ensures Even(Leaves(BuildGrid(rows, cols, nextId).0, area, round), Vertical, q)
    decreases rows
  {
    var (top, next) := BuildRow(cols, nextId);
    RowIsEqualized(cols, nextId);
    if rows == 1 {
      HeightsKept(top, area, round);
    } else {
      var ratio := 1.0 / rows as real;
      FairSplit(1, rows - 1, Vertical, ratio, area, round, q);
      var (a1, a2) := SplitArea(area, Vertical, Finite(ratio), round);
      HeightsKept(top, a1, round);
      GridHeights(rows - 1, cols, next, a2, round, q);
    }
  }

  /** A grid of any size is divided fairly as built: two cells a column less one make the widths differ by at most one. */
  lemma GridWidthsAreFair(rows: nat, cols: nat, inner: Rect, round: Rounding)
    requires rows >= 1 && cols >= 1 && RoundsNearby(round) && inner.Clipped().w >= 2 * cols - 1
    ensures Fair(Leaves(FromGrid(rows, cols).root, inner.Clipped(), round), Horizontal)
  {
    var q := Quotient(inner.Clipped().w + 1, cols);
    GridWidths(rows, cols, 0, inner.Clipped(), round, q);
  }

  /** And two cells a row less one make the heights differ by at most one. */
  lemma GridHeightsAreFair(rows: nat, cols: nat, inner: Rect, round: Rounding)
    requires rows >= 1 && cols >= 1 && RoundsNearby(round) && inner.Clipped().h >= 2 * rows - 1
    ensures Fair(Leaves(FromGrid(rows, cols).root, inner.Clipped(), round), Vertical)
  {
    var q := Quotient(inner.Clipped().h + 1, rows);
    GridHeights(rows, cols, 0, inner.Clipped(), round, q);
  }
}
