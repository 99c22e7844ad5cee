/** Searching the visible screen in copy mode, and cycling through the matches. */
module CopySearch {
  import opened Prelude

  /** Screen positions, ordered by row and then column. */
  type Pos = (nat, nat)

  predicate Less(a: Pos, b: Pos) {
    a.0 < b.0 || (a.0 == b.0 && a.1 < b.1)
  }

  /** One visible row: its lowercased text, and the first and the end column of the cell behind each character. */
  datatype Row = Row(lower: string, cols: seq<(nat, nat)>)

  /** Cells come left to right and are inside the pane. */
  ghost predicate Laid(row: Row, width: nat) {
    && |row.cols| == |row.lower|
    && (forall i :: 0 <= i < |row.cols| ==> row.cols[i].0 < row.cols[i].1 <= width)
    && (forall i, j :: 0 <= i <= j < |row.cols| ==> row.cols[i].0 <= row.cols[j].0 && row.cols[i].1 <= row.cols[j].1)
  }

  datatype Screen = Screen(rows: seq<Row>, width: nat) {
    ghost predicate Valid() {
      forall r :: 0 <= r < |rows| ==> Laid(rows[r], width)
    }
  }

  datatype Match = Match(row: nat, col: nat, len: nat) {
    function At(): Pos { (row, col) }
  }

  // ----- the matches of a query -----

  predicate OccursAt(text: string, query: string, p: nat) {
    p + |query| <= |text| && text[p..p + |query|] == query
  }

  /** The first occurrence from a position on. */
  function FindFrom(text: string, query: string, start: nat): (p: Option<nat>)
    ensures p.Some? ==> start <= p.value && OccursAt(text, query, p.value)
    decreases |text| - start
  {
    if start >= |text| then None
    else if OccursAt(text, query, start) then Some(start)
    else FindFrom(text, query, start + 1)
  }

  function MatchAt(r: nat, row: Row, query: string, p: nat): Match
    requires query != "" && OccursAt(row.lower, query, p) && |row.cols| == |row.lower|
  {
    Match(r, row.cols[p].0, SatSub(row.cols[p + |query| - 1].1, row.cols[p].0))
  }

  /** Every occurrence in a row from a position on, overlapping ones included. */
  function RowMatches(r: nat, row: Row, query: string, start: nat): seq<Match>
    requires query != "" && |row.cols| == |row.lower|
    decreases |row.lower| - start
  {
    if start >= |row.lower| then []
    else (if OccursAt(row.lower, query, start) then [MatchAt(r, row, query, start)] else [])
         + RowMatches(r, row, query, start + 1)
  }

  /** The matches in the first `n` rows. */
  function MatchesUpTo(screen: Screen, query: string, n: nat): seq<Match>
    requires query != "" && n <= |screen.rows| && forall r :: 0 <= r < n ==> |screen.rows[r].cols| == |screen.rows[r].lower|
  {
    if n == 0 then []
    else MatchesUpTo(screen, query, n - 1) + RowMatches(n - 1, screen.rows[n - 1], query, 0)
  }

  ghost function Matches(screen: Screen, query: string): seq<Match>
    requires screen.Valid()
  {
    if query == "" then [] else MatchesUpTo(screen, query, |screen.rows|)
  }

  // ----- which match to jump to -----

  /** The first match after the cursor (or at it, while typing), wrapping round to the first of all. */
  function FirstAfter(matches: seq<Match>, cursor: Pos, atCursor: bool, i: nat): Option<nat>
    decreases |matches| - i
  {
    if i >= |matches| then None
    else if Less(cursor, matches[i].At()) || (atCursor && matches[i].At() == cursor) then Some(i)
    else FirstAfter(matches, cursor, atCursor, i + 1)
  }

  /** The last match before the cursor among the first `n`. */
  function LastBefore(matches: seq<Match>, cursor: Pos, atCursor: bool, n: nat): Option<nat>
    requires n <= |matches|
  {
    if n == 0 then None
    else if Less(matches[n - 1].At(), cursor) || (atCursor && matches[n - 1].At() == cursor) then Some(n - 1)
    else LastBefore(matches, cursor, atCursor, n - 1)
  }

  function JumpTo(matches: seq<Match>, cursor: Pos, forward: bool, atCursor: bool): (i: nat)
    requires matches != []
    ensures i < |matches|
  {
    if forward then
      FirstAfterInRange(matches, cursor, atCursor, 0);
      var i := FirstAfter(matches, cursor, atCursor, 0);
      if i.Some? then i.value else 0
    else
      LastBeforeInRange(matches, cursor, atCursor, |matches|);
      var i := LastBefore(matches, cursor, atCursor, |matches|);
      if i.Some? then i.value else |matches| - 1
  }

  /** The first position is before the second, or at it where that counts too. */
  ghost predicate Leads(a: Pos, b: Pos, equalToo: bool) {
    a.0 < b.0 || (a.0 == b.0 && (a.1 < b.1 || (equalToo && a.1 == b.1)))
  }

  lemma {:induction false} FirstAfterInRange(matches: seq<Match>, cursor: Pos, atCursor: bool, i: nat)
    ensures var k := FirstAfter(matches, cursor, atCursor, i);
            if k.Some? then i <= k.value < |matches|
                         && Leads(cursor, matches[k.value].At(), atCursor)
                         && forall j :: i <= j < k.value ==> !Leads(cursor, matches[j].At(), atCursor)
            else forall j :: i <= j < |matches| ==> !Leads(cursor, matches[j].At(), atCursor)
    decreases |matches| - i
  {
    if i < |matches| {
      FirstAfterInRange(matches, cursor, atCursor, i + 1);
    }
  }

  lemma {:induction false} LastBeforeInRange(matches: seq<Match>, cursor: Pos, atCursor: bool, n: nat)
    requires n <= |matches|
    ensures var k := LastBefore(matches, cursor, atCursor, n);
            if k.Some? then k.value < n
                         && Leads(matches[k.value].At(), cursor, atCursor)
                         && forall j :: k.value < j < n ==> !Leads(matches[j].At(), cursor, atCursor)
            else forall j :: 0 <= j < n ==> !Leads(matches[j].At(), cursor, atCursor)
  {
    if n > 0 {
      LastBeforeInRange(matches, cursor, atCursor, n - 1);
    }
  }

  // ----- copy mode as it is updated in place -----

  datatype Phase =
    | Navigate
    | VisualChar(anchor: Pos)    // selecting characters from here
    | VisualLine(anchorRow: nat) // selecting rows from here
    | Search(forward: bool, query: string)

  /** A selection keeps its anchor on the screen. */
  function PhaseOnScreen(phase: Phase, screen: Screen): Phase {
    match phase
    case VisualChar(anchor) => VisualChar(OnScreen(anchor, screen))
    case VisualLine(row) => VisualLine(Min(row, SatSub(|screen.rows|, 1)))
    case _ => phase
  }

  class CopyMode {
    var phase: Phase
    var cursor: Pos
    var lastSearch: Option<string>
    var lastForward: bool
    var matches: seq<Match>
    var current: Option<nat>

    constructor (rows: nat)
      ensures phase == Navigate && cursor == (SatSub(rows, 1), 0) && lastSearch == None && lastForward
      ensures matches == [] && current == None
    {
      phase, cursor, lastSearch, lastForward := Navigate, (SatSub(rows, 1), 0), None, true;
      matches, current := [], None;
    }

    function Query(): string
      reads this
    {
      match phase
      case Search(_, query) => query
      case _ => if lastSearch.Some? then lastSearch.value else ""
    }

    function Forward(): bool
      reads this
    {
      if phase.Search? then phase.forward else lastForward
    }

    /** Keeps the cursor and a selection on the screen. */
    method Clamp(screen: Screen)
      modifies this`cursor, this`phase
      ensures cursor == OnScreen(old(cursor), screen) && phase == PhaseOnScreen(old(phase), screen)
    {
      cursor := (Min(cursor.0, SatSub(|screen.rows|, 1)), Min(cursor.1, SatSub(screen.width, 1)));
      match phase
      case VisualChar(anchor) =>
        phase := VisualChar((Min(anchor.0, SatSub(|screen.rows|, 1)), Min(anchor.1, SatSub(screen.width, 1))));
      case VisualLine(row) => phase := VisualLine(Min(row, SatSub(|screen.rows|, 1)));
      case _ =>
    }

    /** All occurrences in one row; each search resumes one character after the last. */
    static method SearchRow(r: nat, row: Row, query: string) returns (found: seq<Match>)
      requires query != "" && |row.cols| == |row.lower|
      ensures found == RowMatches(r, row, query, 0)
    {
      found := [];
      var start := 0;
      var p := FindFrom(row.lower, query, start);
      ghost var all := RowMatches(r, row, query, 0);
      assert [] + all == all;
      while p.Some?
        invariant start <= |row.lower| && p == FindFrom(row.lower, query, start)
        invariant found + RowMatches(r, row, query, start) == all
        decreases |row.lower| - start
      {
        NextOccurrence(r, row, query, start);
        var m := MatchAt(r, row, query, p.value);
        assert (found + [m]) + RowMatches(r, row, query, p.value + 1)
            == found + ([m] + RowMatches(r, row, query, p.value + 1));
        found := found + [m];
        start := p.value + 1;
        p := FindFrom(row.lower, query, start);
      }
      NextOccurrence(r, row, query, start);
      assert found + [] == found;
    }

    /** Finds all matches afresh and moves the cursor to the one the direction leads to. */
    method ExecuteSearch(screen: Screen)
      requires screen.Valid()
      modifies this`matches, this`current, this`cursor
      ensures matches == Matches(screen, Query())
      ensures current == if matches == [] then None else Some(JumpTo(matches, old(cursor), Forward(), phase.Search?))
      ensures cursor == if matches == [] then old(cursor) else matches[current.value].At()
    {
      var query := Query();
      if query == "" {
        matches, current := [], None;
        return;
      }
      var found: seq<Match> := [];
      for r := 0 to |screen.rows|
        invariant cursor == old(cursor) && found == MatchesUpTo(screen, query, r)
      {
        var inRow := SearchRow(r, screen.rows[r], query);
        found := found + inRow;
      }
      matches := found;
      if found == [] {
        current := None;
      } else {
        var i := JumpTo(found, cursor, Forward(), phase.Search?);
        current := Some(i);
        cursor := found[i].At();
      }
    }

    /** The `n` key outside search input, while selecting too. */
    method PressNext(screen: Screen)
      requires screen.Valid() && !phase.Search?
      modifies this
      ensures phase == PhaseOnScreen(old(phase), screen) && lastSearch == old(lastSearch) && lastForward == old(lastForward)
      ensures cursor == if lastSearch.None? then OnScreen(old(cursor), screen)
                        else Moved(Matches(screen, lastSearch.value), OnScreen(old(cursor), screen), lastForward)
    {
      Clamp(screen);
      if lastSearch.Some? {
        ExecuteSearch(screen);
      }
    }

    /** The `N` key: one search in the other direction. */
    method PressPrevious(screen: Screen)
      requires screen.Valid() && !phase.Search?
      modifies this
      ensures phase == PhaseOnScreen(old(phase), screen) && lastSearch == old(lastSearch) && lastForward == old(lastForward)
      ensures cursor == if lastSearch.None? then OnScreen(old(cursor), screen)
                        else Moved(Matches(screen, lastSearch.value), OnScreen(old(cursor), screen), !lastForward)
    {
      Clamp(screen);
      if lastSearch.Some? {
        lastForward := !lastForward;
        ExecuteSearch(screen);
        lastForward := !lastForward;
      }
    }

    /** A character typed into the search input. */
    method Type(c: char, screen: Screen)
      requires screen.Valid() && phase.Search?
      modifies this
      ensures phase == Search(old(phase).forward, old(phase).query + [c])
      ensures matches == Matches(screen, phase.query)
    {
      Clamp(screen);
      phase := phase.(query := phase.query + [c]);
      ExecuteSearch(screen);
    }

    /** The `Enter` key in the search input. */
    method Accept(screen: Screen)
      requires screen.Valid() && phase.Search?
      modifies this
      ensures phase == Navigate && lastSearch == Some(old(phase).query) && lastForward == old(phase).forward
      ensures matches == Matches(screen, old(phase).query)
      ensures matches != [] ==> current.Some? && current.value < |matches| && cursor == matches[current.value].At()
    {
      Clamp(screen);
      lastSearch := Some(phase.query);
      lastForward := phase.forward;
      ExecuteSearch(screen);
      phase := Navigate;
    }
  }

  function OnScreen(cursor: Pos, screen: Screen): Pos {
    (Min(cursor.0, SatSub(|screen.rows|, 1)), Min(cursor.1, SatSub(screen.width, 1)))
  }

  /** Where one search step outside search input takes the cursor. */
  function Moved(matches: seq<Match>, cursor: Pos, forward: bool): Pos {
    if matches == [] then cursor else matches[JumpTo(matches, cursor, forward, false)].At()
  }

  /** The matches from an occurrence on. */
  function FromNext(r: nat, row: Row, query: string, p: Option<nat>): seq<Match>
    requires query != "" && |row.cols| == |row.lower| && (p.Some? ==> OccursAt(row.lower, query, p.value))
  {
    if p.None? then [] else [MatchAt(r, row, query, p.value)] + RowMatches(r, row, query, p.value + 1)
  }

  /** The matches from a position on are those from the next occurrence on. */
  lemma {:induction false} NextOccurrence(r: nat, row: Row, query: string, start: nat)
    requires query != "" && |row.cols| == |row.lower|
    ensures RowMatches(r, row, query, start) == FromNext(r, row, query, FindFrom(row.lower, query, start))
    decreases |row.lower| - start
  {
    if start < |row.lower| && !OccursAt(row.lower, query, start) {
      NextOccurrence(r, row, query, start + 1);
    }
  }

  // ----- the matches are sorted -----

  ghost predicate Sorted(matches: seq<Match>) {
    forall i, j :: 0 <= i < j < |matches| ==> !Less(matches[j].At(), matches[i].At())
  }

  lemma {:induction false} RowMatchesSorted(r: nat, row: Row, query: string, width: nat, start: nat)
    requires query != "" && Laid(row, width)
    ensures var ms := RowMatches(r, row, query, start);
            && Sorted(ms)
            && (ms != [] ==> start < |row.lower|)
            && forall i :: 0 <= i < |ms| ==> ms[i].row == r && row.cols[start].0 <= ms[i].col < width
    decreases |row.lower| - start
  {
    if start < |row.lower| {
      RowMatchesSorted(r, row, query, width, start + 1);
      var rest := RowMatches(r, row, query, start + 1);
      if OccursAt(row.lower, query, start) {
        SortedCons(MatchAt(r, row, query, start), rest);
      }
    }
  }

  lemma SortedCons(m: Match, rest: seq<Match>)
    requires Sorted(rest) && forall i :: 0 <= i < |rest| ==> !Less(rest[i].At(), m.At())
    ensures Sorted([m] + rest)
  {
  }

  lemma {:induction false} MatchesSortedUpTo(screen: Screen, query: string, n: nat)
    requires query != "" && screen.Valid() && n <= |screen.rows|
    ensures var ms := MatchesUpTo(screen, query, n);
            Sorted(ms) && forall i :: 0 <= i < |ms| ==> ms[i].row < n && ms[i].col < screen.width
  {
    if n > 0 {
      MatchesSortedUpTo(screen, query, n - 1);
      RowMatchesSorted(n - 1, screen.rows[n - 1], query, screen.width, 0);
    }
  }

  /** The matches come in screen order, and all of them are on the screen. */
  lemma MatchesSorted(screen: Screen, query: string)
    requires screen.Valid()
    ensures Sorted(Matches(screen, query))
    ensures forall i :: 0 <= i < |Matches(screen, query)| ==>
              OnScreen(Matches(screen, query)[i].At(), screen) == Matches(screen, query)[i].At()
  {
    if query != "" {
      MatchesSortedUpTo(screen, query, |screen.rows|);
    }
  }

  /**
   * Searching forward leads to the first match after the cursor, or at it while typing, and round to the first of all;
   * searching backward to the last one before it, and round to the last of all.
   */
  lemma JumpsToNearest(matches: seq<Match>, cursor: Pos, forward: bool, atCursor: bool)
    requires matches != []
    ensures var i := JumpTo(matches, cursor, forward, atCursor);
            if forward
            then if Leads(cursor, matches[i].At(), atCursor)
                 then forall j :: 0 <= j < i ==> !Leads(cursor, matches[j].At(), atCursor)
                 else i == 0 && forall j :: 0 <= j < |matches| ==> !Leads(cursor, matches[j].At(), atCursor)
            else if Leads(matches[i].At(), cursor, atCursor)
                 then forall j :: i < j < |matches| ==> !Leads(matches[j].At(), cursor, atCursor)
                 else i == |matches| - 1 && forall j :: 0 <= j < |matches| ==> !Leads(matches[j].At(), cursor, atCursor)
  {
    FirstAfterInRange(matches, cursor, atCursor, 0);
    LastBeforeInRange(matches, cursor, atCursor, |matches|);
  }

  // ----- the matches are where the query stands -----

  /** The query stands in the text at this position, character by character. */
  ghost predicate StandsAt(text: string, query: string, p: nat) {
    p + |query| <= |text| && forall k :: 0 <= k < |query| ==> text[p + k] == query[k]
  }

  /** The match covers the cells from that of the query's first character to that of its last. */
  ghost predicate Covers(row: Row, query: string, p: nat, m: Match)
    requires query != "" && |row.cols| == |row.lower| && StandsAt(row.lower, query, p)
  {
    m.col == row.cols[p].0 && m.col + m.len == row.cols[p + |query| - 1].1
  }

  ghost predicate IsMatch(r: nat, row: Row, query: string, p: nat, m: Match)
    requires query != "" && |row.cols| == |row.lower|
  {
    m.row == r && StandsAt(row.lower, query, p) && Covers(row, query, p, m)
  }

  lemma OccursWhereItStands(text: string, query: string, p: nat)
    ensures OccursAt(text, query, p) <==> StandsAt(text, query, p)
  {
    if p + |query| <= |text| {
      var there := text[p..p + |query|];
      assert forall k :: 0 <= k < |query| ==> there[k] == text[p + k];
      assert there == query <==> forall k :: 0 <= k < |query| ==> there[k] == query[k];
    }
  }

  lemma MatchCovers(r: nat, row: Row, query: string, width: nat, p: nat, m: Match)
    requires query != "" && Laid(row, width) && OccursAt(row.lower, query, p)
    ensures m == MatchAt(r, row, query, p) <==> IsMatch(r, row, query, p, m)
  {
    OccursWhereItStands(row.lower, query, p);
    assert row.cols[p].0 <= row.cols[p + |query| - 1].0;
  }

  lemma {:induction false} RowMatchesExactly(r: nat, row: Row, query: string, width: nat, start: nat, m: Match)
    requires query != "" && Laid(row, width)
    ensures m in RowMatches(r, row, query, start) <==> exists p :: start <= p && IsMatch(r, row, query, p, m)
    decreases |row.lower| - start
  {
    if start < |row.lower| {
      RowMatchesExactly(r, row, query, width, start + 1, m);
      OccursWhereItStands(row.lower, query, start);
      if OccursAt(row.lower, query, start) {
        MatchCovers(r, row, query, width, start, m);
      }
    }
  }

  lemma {:induction false} MatchesExactlyUpTo(screen: Screen, query: string, n: nat, m: Match)
    requires query != "" && screen.Valid() && n <= |screen.rows|
    ensures m in MatchesUpTo(screen, query, n)
       <==> m.row < n && exists p :: IsMatch(m.row, screen.rows[m.row], query, p, m)
  {
    if n > 0 {
      MatchesExactlyUpTo(screen, query, n - 1, m);
      RowMatchesExactly(n - 1, screen.rows[n - 1], query, screen.width, 0, m);
    }
  }

  /** A match is listed exactly when the query stands there, in whatever row and overlapping whatever others. */
  lemma ListedExactlyWhereItStands(screen: Screen, query: string, m: Match)
    requires screen.Valid()
    ensures m in Matches(screen, query)
       <==> query != "" && m.row < |screen.rows| && exists p :: IsMatch(m.row, screen.rows[m.row], query, p, m)
  {
    if query != "" {
      MatchesExactlyUpTo(screen, query, |screen.rows|, m);
    }
  }

  // ----- cycling -----

  /** The distinct positions of the matches, in order. */
  function Stops(matches: seq<Match>): seq<Pos> {
    if matches == [] then []
    else
      var n := |matches| - 1;
      var rest := Stops(matches[..n]);
      if rest != [] && rest[|rest| - 1] == matches[n].At() then rest else rest + [matches[n].At()]
  }

  ghost predicate Increasing(stops: seq<Pos>) {
    forall i, j :: 0 <= i < j < |stops| ==> Less(stops[i], stops[j])
  }

  /** Each stop is some match's position, and stops are strictly increasing from the first match to the last. */
  lemma {:induction false} StopsIncrease(matches: seq<Match>)
    requires Sorted(matches)
    ensures var s := Stops(matches);
            && Increasing(s) && (s == [] <==> matches == [])
            && (matches != [] ==> s[|s| - 1] == matches[|matches| - 1].At() && s[0] == matches[0].At())
  {
    if |matches| > 0 {
      var n := |matches| - 1;
      var rest := Stops(matches[..n]);
      StopsIncrease(matches[..n]);
      if n > 0 {
        assert !Less(matches[n].At(), matches[n - 1].At());
      }
    }
  }

  lemma {:induction false} StopIsMatch(matches: seq<Match>, i: nat) returns (k: nat)
    requires i < |Stops(matches)|
    ensures k < |matches| && matches[k].At() == Stops(matches)[i]
  {
    var n := |matches| - 1;
    if i < |Stops(matches[..n])| {
      k := StopIsMatch(matches[..n], i);
    } else {
      k := n;
    }
  }

  lemma {:induction false} MatchIsStop(matches: seq<Match>, k: nat) returns (i: nat)
    requires k < |matches|
    ensures i < |Stops(matches)| && Stops(matches)[i] == matches[k].At()
  {
    var n := |matches| - 1;
    if k < n {
      i := MatchIsStop(matches[..n], k);
    } else {
      i := |Stops(matches)| - 1;
    }
  }

  /** The next stop round the cycle. */
  function Around(i: nat, m: nat, forward: bool): nat
    requires i < m
  {
    if forward then (if i + 1 < m then i + 1 else 0) else (if i > 0 then i - 1 else m - 1)
  }

  /** From a stop, a search step leads to the next stop round the cycle. */
  lemma MovesAround(matches: seq<Match>, i: nat, forward: bool)
    requires Sorted(matches) && i < |Stops(matches)|
    ensures Moved(matches, Stops(matches)[i], forward) == Stops(matches)[Around(i, |Stops(matches)|, forward)]
  {
    StopsIncrease(matches);
    if forward {
      ForwardFrom(matches, i);
    } else {
      BackwardFrom(matches, i);
    }
  }

  lemma ForwardFrom(matches: seq<Match>, i: nat)
    requires Sorted(matches) && i < |Stops(matches)|
    ensures Moved(matches, Stops(matches)[i], true) == Stops(matches)[Around(i, |Stops(matches)|, true)]
  {
    var s := Stops(matches);
    StopsIncrease(matches);
    FirstAfterInRange(matches, s[i], false, 0);
    var k := FirstAfter(matches, s[i], false, 0);
    if k.Some? {
      var j := MatchIsStop(matches, k.value);
      assert i < j by { StopOrder(s, i, j); }
      var m := StopIsMatch(matches, i + 1);
      assert !Less(matches[m].At(), matches[k.value].At());
      assert j <= i + 1 by { StopOrder(s, j, i + 1); }
    } else if i + 1 < |s| {
      var m := StopIsMatch(matches, i + 1);
    }
  }

  lemma BackwardFrom(matches: seq<Match>, i: nat)
    requires Sorted(matches) && i < |Stops(matches)|
    ensures Moved(matches, Stops(matches)[i], false) == Stops(matches)[Around(i, |Stops(matches)|, false)]
  {
    var s := Stops(matches);
    StopsIncrease(matches);
    LastBeforeInRange(matches, s[i], false, |matches|);
    var k := LastBefore(matches, s[i], false, |matches|);
    if k.Some? {
      var j := MatchIsStop(matches, k.value);
      assert j < i by { StopOrder(s, j, i); }
      var m := StopIsMatch(matches, i - 1);
      assert !Less(matches[k.value].At(), matches[m].At());
      assert i - 1 <= j by { StopOrder(s, i - 1, j); }
    }
  }

  /** Stops compare as their indices do. */
  lemma StopOrder(s: seq<Pos>, i: nat, j: nat)
    requires Increasing(s) && i < |s| && j < |s|
    ensures Less(s[i], s[j]) <==> i < j
    ensures s[i] == s[j] <==> i == j
  {
  }

  /** On a match, `n` and then `N` is back where it was, and so is `N` and then `n`, whichever way the search went. */
  lemma NextThenPrevious(screen: Screen, query: string, cursor: Pos, forward: bool)
    requires screen.Valid() && cursor in Stops(Matches(screen, query))
    ensures var ms := Matches(screen, query); Moved(ms, Moved(ms, cursor, forward), !forward) == cursor
  {
    var ms := Matches(screen, query);
    MatchesSorted(screen, query);
    var i :| 0 <= i < |Stops(ms)| && Stops(ms)[i] == cursor;
    MovesAround(ms, i, forward);
    MovesAround(ms, Around(i, |Stops(ms)|, forward), !forward);
  }

  /** The cursor after pressing `n` so many times. */
  function Pressed(matches: seq<Match>, cursor: Pos, forward: bool, times: nat): Pos {
    if times == 0 then cursor else Moved(matches, Pressed(matches, cursor, forward, times - 1), forward)
  }

  /** How far round the cycle of `m` stops `times` presses lead from stop `i`. */
  function Turned(i: nat, m: nat, forward: bool, times: nat): (k: nat)
    requires i < m
    ensures k < m
  {
    if times == 0 then i else Around(Turned(i, m, forward, times - 1), m, forward)
  }

  lemma {:induction false} TurnedIs(i: nat, m: nat, forward: bool, times: nat)
    requires i < m && times <= m
    ensures Turned(i, m, forward, times)
         == if forward then (if i + times < m then i + times else i + times - m)
            else (if times <= i then i - times else i + m - times)
  {
    if times > 0 {
      TurnedIs(i, m, forward, times - 1);
    }
  }

  lemma {:induction false} PressedIsTurned(matches: seq<Match>, i: nat, forward: bool, times: nat)
    requires Sorted(matches) && i < |Stops(matches)|
    ensures Pressed(matches, Stops(matches)[i], forward, times) == Stops(matches)[Turned(i, |Stops(matches)|, forward, times)]
  {
    if times > 0 {
      PressedIsTurned(matches, i, forward, times - 1);
      MovesAround(matches, Turned(i, |Stops(matches)|, forward, times - 1), forward);
    }
  }

  /**
   * Repeating `n` from a match visits distinct positions until it is back: with m of them on the screen, the presses
   * 0 to m - 1 give m different positions, and the m-th gives the first again.
   */
  lemma SearchCycles(screen: Screen, query: string, cursor: Pos, forward: bool)
    requires screen.Valid() && cursor in Stops(Matches(screen, query))
    ensures var ms := Matches(screen, query); var m := |Stops(ms)|;
            Pressed(ms, cursor, forward, m) == cursor
            && (forall a, b :: 0 <= a < b < m ==> Pressed(ms, cursor, forward, a) != Pressed(ms, cursor, forward, b))
  {
    var ms := Matches(screen, query);
    var m := |Stops(ms)|;
    MatchesSorted(screen, query);
    var i :| 0 <= i < m && Stops(ms)[i] == cursor;
    PressedIsTurned(ms, i, forward, m);
    TurnedIs(i, m, forward, m);
    forall a, b | 0 <= a < b < m ensures Pressed(ms, cursor, forward, a) != Pressed(ms, cursor, forward, b) {
      DifferentPresses(ms, i, forward, a, b);
    }
  }

  /** And every match is among them. */
  lemma EveryMatchIsVisited(screen: Screen, query: string, cursor: Pos, forward: bool, k: nat) returns (a: nat)
    requires screen.Valid() && cursor in Stops(Matches(screen, query)) && k < |Matches(screen, query)|
    ensures var ms := Matches(screen, query); a < |Stops(ms)| && Pressed(ms, cursor, forward, a) == ms[k].At()
  {
    var ms := Matches(screen, query);
    MatchesSorted(screen, query);
    var i :| 0 <= i < |Stops(ms)| && Stops(ms)[i] == cursor;
    var j := MatchIsStop(ms, k);
    a := Reaches(ms, i, j, forward);
  }

  /** How often to press to get from one stop to another. */
  lemma Reaches(matches: seq<Match>, i: nat, k: nat, forward: bool) returns (a: nat)
    requires Sorted(matches) && i < |Stops(matches)| && k < |Stops(matches)|
    ensures a < |Stops(matches)| && Pressed(matches, Stops(matches)[i], forward, a) == Stops(matches)[k]
  {
    var m := |Stops(matches)|;
    a := if forward then (if k >= i then k - i else k + m - i) else (if k <= i then i - k else i + m - k);
    PressedIsTurned(matches, i, forward, a);
    TurnedIs(i, m, forward, a);
  }

  lemma DifferentPresses(matches: seq<Match>, i: nat, forward: bool, a: nat, b: nat)
    requires Sorted(matches) && i < |Stops(matches)| && a < b < |Stops(matches)|
    ensures Pressed(matches, Stops(matches)[i], forward, a) != Pressed(matches, Stops(matches)[i], forward, b)
  {
    var m := |Stops(matches)|;
    StopsIncrease(matches);
    PressedIsTurned(matches, i, forward, a);
    PressedIsTurned(matches, i, forward, b);
    TurnedIs(i, m, forward, a);
    TurnedIs(i, m, forward, b);
    var (x, y) := (Turned(i, m, forward, a), Turned(i, m, forward, b));
    assert x != y;
    StopOrder(Stops(matches), x, y);
  }
}
