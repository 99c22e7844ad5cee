/** Writing a layout down as a spec and reading it back. */
module SpecPrinting {
  import opened Prelude
  import opened LayoutTree
  import opened LayoutSpec

  /** The weights of a layout, row by row. */
  type Weights = seq<seq<nat>>

  function Digit(w: nat): char
    requires 1 <= w <= 9
  {
    (('0' as int) + w) as char
  }

  function Digits(weights: seq<nat>): seq<string>
    requires AllWeights(weights)
  {
    seq(|weights|, i requires 0 <= i < |weights| => [Digit(weights[i])])
  }

  /** No row is empty, and all weights are from 1 to 9. */
  ghost predicate Writable(rows: Weights) {
    forall i :: 0 <= i < |rows| ==> rows[i] != [] && AllWeights(rows[i])
  }

  function WriteRow(weights: seq<nat>): string
    requires weights != [] && AllWeights(weights)
  {
    JoinWith(Digits(weights), ':')
  }

  function WriteRows(rows: Weights): seq<string>
    requires Writable(rows)
  {
    seq(|rows|, i requires 0 <= i < |rows| => WriteRow(rows[i]))
  }

  function Write(rows: Weights): string
    requires rows != [] && Writable(rows)
  {
    JoinWith(WriteRows(rows), '/')
  }

  /** How many panes the rows have together. */
  function PaneCount(rows: Weights): nat {
    if rows == [] then 0 else |rows[0]| + PaneCount(rows[1..])
  }

  /** The rows' trees, numbered on from one to the next. */
  function RowTrees(rows: Weights, nextId: nat): seq<Node>
    requires Writable(rows)
    decreases |rows|
  {
    if rows == [] then []
    else [BuildWeightedRow(rows[0], Sum(rows[0]), nextId).0] + RowTrees(rows[1..], nextId + |rows[0]|)
  }

  // ----- one row -----

  lemma ReadDigit(w: nat)
    requires 1 <= w <= 9
    ensures ParseWeight([Digit(w)]) == Ok(w)
  {
    var s := [Digit(w)];
    assert Trim(s) == s;
    assert s[1..] == [];
    assert CodesOf(s) == [0x30 + w];
    assert Decimal([0x30 + w], 0) == Decimal([], w);
  }

  lemma {:induction false} ReadDigits(weights: seq<nat>)
    requires AllWeights(weights)
    ensures ParseWeights(Digits(weights)) == Ok(weights)
  {
    if weights != [] {
      ReadDigit(weights[0]);
      ReadDigits(weights[1..]);
      assert Digits(weights)[1..] == Digits(weights[1..]);
      assert [weights[0]] + weights[1..] == weights;
    }
  }

  ghost predicate ReadsAs(text: string, row: seq<nat>) {
    ParseWeights(SplitOn(text, ':')) == Ok(row) && |SplitOn(text, ':')| == |row|
  }

  ghost predicate AllRead(texts: seq<string>, rows: Weights) {
    |texts| == |rows| && forall i :: 0 <= i < |rows| ==> ReadsAs(texts[i], rows[i])
  }

  /** A written row reads back as its weights, and holds no row separator. */
  lemma ReadRow(weights: seq<nat>)
    requires weights != [] && AllWeights(weights)
    ensures ReadsAs(WriteRow(weights), weights)
    ensures '/' !in WriteRow(weights)
  {
    ReadDigits(weights);
    JoinThenSplit(Digits(weights), ':');
    JoinKeepsOut(Digits(weights), ':', '/');
  }

  lemma {:induction false} JoinKeepsOut(parts: seq<string>, sep: char, c: char)
    requires parts != [] && sep != c && forall i :: 0 <= i < |parts| ==> c !in parts[i]
    ensures c !in JoinWith(parts, sep)
  {
    if |parts| > 1 {
      JoinKeepsOut(parts[1..], sep, c);
    }
  }

  // ----- all rows -----

  lemma WrittenReads(rows: Weights)
    requires Writable(rows)
    ensures AllRead(WriteRows(rows), rows)
    ensures forall i :: 0 <= i < |rows| ==> '/' !in WriteRows(rows)[i]
  {
    forall i | 0 <= i < |rows| ensures ReadsAs(WriteRows(rows)[i], rows[i]) && '/' !in WriteRows(rows)[i] {
      ReadRow(rows[i]);
    }
  }

  /** The first of several rows, the others being read after it. */
  lemma ReadFirst(texts: seq<string>, row: seq<nat>, nextId: nat)
    requires texts != [] && row != [] && AllWeights(row)
    requires ReadsAs(texts[0], row)
    ensures BuildRows(texts, nextId)
         == match BuildRows(texts[1..], nextId + |row|)
            case Err(e) => Err(e)
            case Ok((nodes, last)) => Ok(([BuildWeightedRow(row, Sum(row), nextId).0] + nodes, last))
  {
    WeightedRowIds(row, nextId);
  }

  lemma OthersRead(texts: seq<string>, rows: Weights)
    requires rows != [] && Writable(rows) && AllRead(texts, rows)
    ensures Writable(rows[1..]) && AllRead(texts[1..], rows[1..])
    ensures rows[0] != [] && AllWeights(rows[0]) && ReadsAs(texts[0], rows[0])
  {
  }

  lemma {:induction false} ReadRows(texts: seq<string>, rows: Weights, nextId: nat)
    requires Writable(rows) && AllRead(texts, rows)
    ensures BuildRows(texts, nextId).Ok? && BuildRows(texts, nextId).value.0 == RowTrees(rows, nextId)
    ensures BuildRows(texts, nextId).value.1 == nextId + PaneCount(rows)
    decreases |rows|
  {
    if rows != [] {
      OthersRead(texts, rows);
      ReadFirst(texts, rows[0], nextId);
      ReadRows(texts[1..], rows[1..], nextId + |rows[0]|);
    }
  }

  lemma {:induction false} CountColumns(texts: seq<string>, rows: Weights)
    requires Writable(rows) && AllRead(texts, rows)
    ensures |Columns(texts)| == PaneCount(rows)
    decreases |rows|
  {
    if rows != [] {
      CountColumns(texts[1..], rows[1..]);
    }
  }

  // ----- the ends of the text -----

  predicate IsWeightDigit(c: char) { '1' <= c <= '9' }

  lemma {:induction false} JoinEnds(parts: seq<string>, sep: char)
    requires parts != []
    requires forall i :: 0 <= i < |parts| ==>
               parts[i] != "" && IsWeightDigit(parts[i][0]) && IsWeightDigit(parts[i][|parts[i]| - 1])
    ensures var s := JoinWith(parts, sep); s != "" && IsWeightDigit(s[0]) && IsWeightDigit(s[|s| - 1])
  {
    if |parts| > 1 {
      JoinEnds(parts[1..], sep);
    }
  }

  /** A written layout begins with a digit, so it is no preset, and has no space to trim. */
  lemma WrittenPlainly(rows: Weights)
    requires rows != [] && Writable(rows)
    ensures Trim(Write(rows)) == Write(rows) && Resolve(Write(rows)) == Write(rows) && Write(rows) != "quad"
  {
    forall i | 0 <= i < |rows|
      ensures var s := WriteRow(rows[i]); s != "" && IsWeightDigit(s[0]) && IsWeightDigit(s[|s| - 1])
    {
      JoinEnds(Digits(rows[i]), ':');
    }
    JoinEnds(WriteRows(rows), '/');
    DigitsAreNoPreset(Write(rows));
  }

  lemma DigitsAreNoPreset(s: string)
    requires s != "" && IsWeightDigit(s[0]) && IsWeightDigit(s[|s| - 1])
    ensures Trim(s) == s && Resolve(s) == s && s != "quad"
  {
  }

  /** What a text whose rows read as these weights is read as. */
  lemma ReadAll(spec: string, rows: Weights)
    requires rows != [] && Writable(rows) && AllRead(SplitOn(spec, '/'), rows)
    ensures FromRows(spec)
         == if PaneCount(rows) <= MAX_PANES
            then Ok(LayoutState(BuildWeightedColumn(RowTrees(rows, 0), |RowTrees(rows, 0)|), PaneCount(rows)))
            else Err(TooManyPanes(PaneCount(rows)))
  {
    SeparatorsCount(spec);
    ReadRows(SplitOn(spec, '/'), rows, 0);
    CountColumns(SplitOn(spec, '/'), rows);
  }

  /**
   * Reading back what was written: for all rows of weights from 1 to 9, at most a hundred in all, the layout string is
   * accepted and gives the tree of just those rows and weights; with more than a hundred it is refused with their number.
   */
  lemma {:induction false} SpecRoundTrip(rows: Weights)
    requires rows != [] && Writable(rows)
    ensures FromSpec(Write(rows))
         == if PaneCount(rows) <= MAX_PANES
            then Ok(LayoutState(BuildWeightedColumn(RowTrees(rows, 0), |RowTrees(rows, 0)|), PaneCount(rows)))
            else Err(TooManyPanes(PaneCount(rows)))
  {
    WrittenPlainly(rows);
    WrittenReads(rows);
    JoinThenSplit(WriteRows(rows), '/');
    ReadAll(Write(rows), rows);
  }

  // ----- presets -----

  /** The rows of weights that a preset stands for, as the documentation gives them. */
  function Preset(name: string): Option<Weights> {
    match name
    case "ide" => Some([[7, 3], [1, 1]])
    case "dev" => Some([[7, 3]])
    case "monitor" => Some([[1, 1, 1]])
    case "stack" => Some([[1], [1], [1]])
    case "main" => Some([[6, 4], [1]])
    case "trio" => Some([[1], [1, 1]])
    case _ => None
  }

  /** A preset is the layout of its weights, white space around its name left out. */
  lemma PresetsAreTheirWeights(before: string, name: string, after: string)
    requires Preset(name).Some? && AllWhite(before) && AllWhite(after)
    ensures Writable(Preset(name).value) && FromSpec(before + name + after) == FromSpec(Write(Preset(name).value))
  {
    TrimsTo(before, name, after);
    PresetWritten(name);
    WrittenPlainly(Preset(name).value);
  }

  lemma WrittenRow(weights: seq<nat>)
    requires 1 <= |weights| <= 3 && AllWeights(weights)
    ensures WriteRow(weights)
         == [Digit(weights[0])] + (if |weights| > 1 then [':', Digit(weights[1])] else [])
                                + (if |weights| > 2 then [':', Digit(weights[2])] else [])
  {
    var d := Digits(weights);
    if |weights| > 1 {
      assert JoinWith(d, ':') == d[0] + [':'] + JoinWith(d[1..], ':');
      if |weights| > 2 {
        assert JoinWith(d[1..], ':') == d[1] + [':'] + JoinWith(d[1..][1..], ':');
      }
    }
  }

  lemma WrittenRows(rows: Weights)
    requires 1 <= |rows| <= 3 && Writable(rows)
    ensures Write(rows)
         == WriteRow(rows[0]) + (if |rows| > 1 then ['/'] + WriteRow(rows[1]) else [])
                              + (if |rows| > 2 then ['/'] + WriteRow(rows[2]) else [])
  {
    var w := WriteRows(rows);
    if |rows| > 1 {
      assert JoinWith(w, '/') == w[0] + ['/'] + JoinWith(w[1..], '/');
      if |rows| > 2 {
        assert JoinWith(w[1..], '/') == w[1] + ['/'] + JoinWith(w[1..][1..], '/');
      }
    }
  }

  lemma OneWritten(row: seq<nat>)
    requires 1 <= |row| <= 3 && AllWeights(row) && Writable([row])
    ensures Write([row])
         == [Digit(row[0])] + (if |row| > 1 then [':', Digit(row[1])] else [])
                            + (if |row| > 2 then [':', Digit(row[2])] else [])
  {
    WrittenRows([row]);
    WrittenRow(row);
  }

  lemma TwoWritten(a: seq<nat>, b: seq<nat>)
    requires 1 <= |a| <= 2 && 1 <= |b| <= 2 && AllWeights(a) && AllWeights(b) && Writable([a, b])
    ensures Write([a, b])
         == [Digit(a[0])] + (if |a| > 1 then [':', Digit(a[1])] else []) + ['/']
          + [Digit(b[0])] + (if |b| > 1 then [':', Digit(b[1])] else [])
  {
    WrittenRows([a, b]);
    WrittenRow(a);
    WrittenRow(b);
  }

  lemma SpelledInOneRow(rows: Weights, text: string)
    requires (rows == [[7, 3]] && text == "7:3") || (rows == [[1, 1, 1]] && text == "1:1:1")
    ensures Writable(rows) && Write(rows) == text
  {
    assert AllWeights(rows[0]);
    OneWritten(rows[0]);
  }

  lemma SpelledInTwoRows(rows: Weights, text: string)
    requires (rows == [[7, 3], [1, 1]] && text == "7:3/1:1") || (rows == [[6, 4], [1]] && text == "6:4/1")
          || (rows == [[1], [1, 1]] && text == "1/1:1")
    ensures Writable(rows) && Write(rows) == text
  {
    assert AllWeights(rows[0]) && AllWeights(rows[1]);
    TwoWritten(rows[0], rows[1]);
  }

  lemma SpelledInThreeRows(rows: Weights, text: string)
    requires rows == [[1], [1], [1]] && text == "1/1/1"
    ensures Writable(rows) && Write(rows) == text
  {
    assert AllWeights(rows[0]);
    WrittenRows(rows);
    WrittenRow(rows[0]);
  }

  lemma PresetWritten(name: string)
    requires Preset(name).Some?
    ensures Writable(Preset(name).value) && Preset(name).value != [] && Write(Preset(name).value) == Resolve(name)
  {
    var rows := Preset(name).value;
    if |rows| == 1 {
      SpelledInOneRow(rows, Resolve(name));
    } else if |rows| == 2 {
      SpelledInTwoRows(rows, Resolve(name));
    } else {
      SpelledInThreeRows(rows, Resolve(name));
    }
  }
}
