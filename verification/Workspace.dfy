/** One tab: its layout, its pane table and the active pane, driven by control requests. */
module Workspace {
  import opened Prelude
  import opened LayoutTree
  import opened Geometry
  import opened Relabel

  const ID_LIMIT: nat := 0xFFFF_FFFF_FFFF_FFFF

  datatype Launch = Shell | Command(line: string)

  /** What the table records of a running pane. */
  datatype Pane = Pane(launch: Launch, cols: u16, rows: u16)

  datatype Request =
    | SplitPane(dir: Direction, at: Option<nat>)
    | Close(pane: nat)
    | Focus(pane: nat)
    | Equalize
    | Relayout(spec: string)
    | Exec(pane: nat, command: string)

  datatype Reply = Done | Refused

  /** The screen a request runs against, and whether spawning a process succeeds. */
  datatype Screen = Screen(inner: Rect, round: Rounding, spawned: bool)

  // ----- the tab as a value -----

  datatype Tab = Tab(layout: LayoutState, panes: map<nat, Pane>, active: nat) {
    function Ids(): seq<nat> { PaneIds(layout.root) }
  }

  function SizedFor(launch: Launch, rect: Rect): Pane {
    Pane(launch, Max(rect.w, 1), Max(rect.h, 1))
  }

  /** Every pane that has a rectangle takes its size. */
  function ResizeAll(panes: map<nat, Pane>, rects: map<nat, Rect>): map<nat, Pane> {
    map id | id in panes :: if id in rects then SizedFor(panes[id].launch, rects[id]) else panes[id]
  }

  predicate BigEnough(rect: Rect, dir: Direction) {
    match dir
    case Horizontal => rect.w >= 13 && rect.h >= 3
    case Vertical => rect.h >= 7 && rect.w >= 6
  }

  /** The checks `do_split` makes before it touches anything. */
  predicate MaySplit(tab: Tab, target: nat, dir: Direction, screen: Screen) {
    var rects := RectMap(tab.layout.root, screen.inner, screen.round);
    && target in tab.panes && target in tab.Ids()
    && |tab.panes| < 100 && tab.layout.nextId < ID_LIMIT
    && target in rects && BigEnough(rects[target], dir)
  }

  function SplitTab(tab: Tab, target: nat, dir: Direction, screen: Screen): (Tab, Reply) {
    if !MaySplit(tab, target, dir, screen) then (tab, Refused)
    else
      var newId := tab.layout.nextId;
      var next := LayoutState(EqualizeNode(SplitNode(tab.layout.root, target, newId, dir)), newId + 1);
      var rects := RectMap(next.root, screen.inner, screen.round);
      if newId !in rects || !screen.spawned then (tab, Refused)
      else (Resized(Tab(next, tab.panes[newId := SizedFor(Shell, rects[newId])], tab.active), screen), Done)
  }

  /** Drops a pane from the table and from the tree; the tree keeps its last leaf. */
  function Closed(tab: Tab, pane: nat): Tab {
    var root := if CountLeaves(tab.layout.root) > 1 && pane in tab.Ids() then RemoveNode(tab.layout.root, pane) else None;
    var layout := if root.Some? then tab.layout.(root := root.value) else tab.layout;
    Tab(layout, tab.panes - {pane}, if tab.active == pane then PaneIds(layout.root)[0] else tab.active)
  }

  function Resized(tab: Tab, screen: Screen): Tab {
    tab.(panes := ResizeAll(tab.panes, RectMap(tab.layout.root, screen.inner, screen.round)))
  }

  function CloseTabPane(tab: Tab, pane: nat, screen: Screen): (Tab, Reply) {
    if pane !in tab.panes && pane !in tab.Ids() then (tab, Refused) else (Resized(Closed(tab, pane), screen), Done)
  }

  /** The same panes in the same order in a tree of another shape. */
  function Reshaped(tab: Tab, shape: Node, screen: Screen): Tab
    requires CountLeaves(shape) == |tab.Ids()|
  {
    Resized(tab.(layout := tab.layout.(root := WithIds(shape, tab.Ids()))), screen)
  }

  function RelayoutTab(tab: Tab, spec: string, screen: Screen): (Tab, Reply) {
    if !Suits(tab.layout, spec) then (tab, Refused) else (Reshaped(tab, LayoutSpec.FromSpec(spec).value.root, screen), Done)
  }

  function Step(tab: Tab, request: Request, screen: Screen): (Tab, Reply) {
    match request
    case SplitPane(dir, at) =>
      var target := if at.Some? then at.value else tab.active;
      SplitTab(tab, target, dir, screen)
    case Close(pane) => CloseTabPane(tab, pane, screen)
    case Focus(pane) => if pane in tab.panes then (tab.(active := pane), Done) else (tab, Refused)
    case Equalize =>
      (Resized(tab.(layout := tab.layout.(root := EqualizeNode(tab.layout.root))), screen), Done)
    case Relayout(spec) => RelayoutTab(tab, spec, screen)
    case Exec(pane, command) =>
      var rects := RectMap(tab.layout.root, screen.inner, screen.round);
      if pane !in tab.panes || pane !in rects || !screen.spawned then (tab, Refused)
      else (tab.(panes := tab.panes[pane := SizedFor(Command(command), rects[pane])]), Done)
  }

  // ----- the tab as it is updated in place -----

  class Session {
    var layout: Layout
    var panes: map<nat, Pane>
    var active: nat

    constructor (layout: Layout, panes: map<nat, Pane>, active: nat)
      ensures this.layout == layout && this.panes == panes && this.active == active
    {
      this.layout, this.panes, this.active := layout, panes, active;
    }

    function View(): Tab
      reads this, layout
    {
      Tab(layout.View(), panes, active)
    }

    method ResizePanes(screen: Screen)
      modifies this`panes
      ensures View() == Resized(old(View()), screen)
    {
      var rects := PaneRects(layout.root, screen.inner, screen.round);
      var before := panes;
      var rest := rects.Keys;
      while rest != {}
        invariant rest <= rects.Keys && panes.Keys == before.Keys
        invariant forall id :: id in panes ==>
                    panes[id] == if id in rects && id !in rest then SizedFor(before[id].launch, rects[id]) else before[id]
        decreases |rest|
      {
        var id :| id in rest;
        rest := rest - {id};
        if id in panes {
          panes := panes[id := SizedFor(panes[id].launch, rects[id])];
        }
      }
    }

    /** Works on a copy of the layout, so that a failed spawn leaves the tab alone. */
    method DoSplit(target: nat, dir: Direction, screen: Screen) returns (reply: Reply)
      modifies this
      ensures (View(), reply) == SplitTab(old(View()), target, dir, screen)
      ensures layout == old(layout) || fresh(layout)
    {
      if target !in panes || target !in PaneIds(layout.root) || |panes| >= 100 || layout.nextId >= ID_LIMIT {
        return Refused;
      }
      var rects := PaneRects(layout.root, screen.inner, screen.round);
      if target !in rects || !BigEnough(rects[target], dir) {
        return Refused;
      }
      var nextLayout := new Layout(layout.root, layout.nextId);
      var newId := nextLayout.Split(target, dir);
      rects := PaneRects(nextLayout.root, screen.inner, screen.round);
      if newId !in rects || !screen.spawned {
        return Refused;
      }
      panes := panes[newId := SizedFor(Shell, rects[newId])];
      layout := nextLayout;
      ResizePanes(screen);
      return Done;
    }

    method ClosePane(pane: nat)
      modifies this, layout
      ensures layout == old(layout)
      ensures View() == Closed(old(View()), pane)
    {
      panes := panes - {pane};
      var removed := layout.Remove(pane);
      if active == pane {
        active := PaneIds(layout.root)[0];
      }
      RemoveDropsOne(old(layout.root), pane);
    }

    method HandleRequest(request: Request, screen: Screen) returns (reply: Reply)
      modifies this, layout
      ensures (View(), reply) == Step(old(View()), request, screen)
    {
      match request
      case SplitPane(dir, at) =>
        var target := if at.Some? then at.value else active;
        if target !in panes {
          return Refused;
        }
        reply := DoSplit(target, dir, screen);
      case Close(pane) =>
        if pane !in panes && pane !in PaneIds(layout.root) {
          return Refused;
        }
        ClosePane(pane);
        ResizePanes(screen);
        return Done;
      case Focus(pane) =>
        if pane !in panes {
          return Refused;
        }
        active := pane;
        return Done;
      case Equalize =>
        layout.Equalize();
        ResizePanes(screen);
        return Done;
      case Relayout(spec) =>
        var ok := ReconfigureLayout(layout, spec);
        if !ok {
          return Refused;
        }
        ResizePanes(screen);
        return Done;
      case Exec(pane, command) =>
        if pane !in panes {
          return Refused;
        }
        var rects := PaneRects(layout.root, screen.inner, screen.round);
        if pane !in rects || !screen.spawned {
          return Refused;
        }
        panes := panes[pane := SizedFor(Command(command), rects[pane])];
        return Done;
    }
  }

  // ----- the run invariant -----

  /** The table holds exactly the tree's leaves, or every pane is gone and one stale leaf remains. */
  ghost predicate TableMatches(tab: Tab) {
    tab.panes.Keys == Elems(tab.Ids()) || (tab.panes == map[] && |tab.Ids()| == 1)
  }

  ghost predicate Consistent(tab: Tab) {
    && Distinct(tab.Ids())
    && (forall id :: id in tab.Ids() ==> id < tab.layout.nextId)
    && tab.active in tab.Ids()
    && |tab.panes| <= 100
    && TableMatches(tab)
  }

  lemma ResizeKeepsKeys(panes: map<nat, Pane>, rects: map<nat, Rect>)
    ensures ResizeAll(panes, rects).Keys == panes.Keys && |ResizeAll(panes, rects)| == |panes|
  {
    assert ResizeAll(panes, rects).Keys == panes.Keys;
    assert |ResizeAll(panes, rects)| == |ResizeAll(panes, rects).Keys| && |panes| == |panes.Keys|;
  }

  /** A consistent tab after its tree changed but not its ids. */
  lemma SameIdsConsistent(tab: Tab, root: Node, rects: map<nat, Rect>)
    requires Consistent(tab) && PaneIds(root) == tab.Ids()
    ensures Consistent(Tab(tab.layout.(root := root), ResizeAll(tab.panes, rects), tab.active))
  {
    ResizeKeepsKeys(tab.panes, rects);
    assert tab.panes == map[] ==> ResizeAll(tab.panes, rects) == map[];
  }

  lemma InsertKeeps(ids: seq<nat>, i: nat, newId: nat)
    requires i < |ids| && Distinct(ids) && newId !in ids
    ensures Distinct(ids[..i + 1] + [newId] + ids[i + 1..])
    ensures Elems(ids[..i + 1] + [newId] + ids[i + 1..]) == Elems(ids) + {newId}
  {
    var grown := ids[..i + 1] + [newId] + ids[i + 1..];
    forall x ensures x in grown <==> x in ids || x == newId {
      if x in ids {
        var k :| 0 <= k < |ids| && ids[k] == x;
        assert grown[if k <= i then k else k + 1] == x;
      }
      if x == newId {
        assert grown[i + 1] == x;
      }
    }
  }

  lemma CutKeeps(ids: seq<nat>, i: nat)
    requires i < |ids| && Distinct(ids)
    ensures Distinct(ids[..i] + ids[i + 1..])
    ensures Elems(ids[..i] + ids[i + 1..]) == Elems(ids) - {ids[i]}
  {
    var shrunk := ids[..i] + ids[i + 1..];
    forall k | 0 <= k < |shrunk| ensures shrunk[k] == ids[if k < i then k else k + 1] {
    }
    forall y ensures y in shrunk <==> y in ids && y != ids[i] {
      if y in ids && y != ids[i] {
        var k :| 0 <= k < |ids| && ids[k] == y;
        assert shrunk[if k < i then k else k - 1] == y;
      }
    }
  }

  lemma WithoutFirstKeeps(ids: seq<nat>, x: nat)
    requires Distinct(ids) && x in ids
    ensures Distinct(WithoutFirst(ids, x))
    ensures Elems(WithoutFirst(ids, x)) == Elems(ids) - {x}
  {
    var i := FirstIndex(ids, x);
    WithoutFirstAt(ids, x, i);
    CutKeeps(ids, i);
  }

  lemma SplitConsistent(tab: Tab, target: nat, dir: Direction, screen: Screen)
    requires Consistent(tab)
    ensures Consistent(SplitTab(tab, target, dir, screen).0)
  {
    if SplitTab(tab, target, dir, screen).1 == Done {
      var newId := tab.layout.nextId;
      var i := FirstIndex(tab.Ids(), target);
      SplitPosition(tab.layout.root, target, newId, dir, i);
      InsertKeeps(tab.Ids(), i, newId);
      var root := EqualizeNode(SplitNode(tab.layout.root, target, newId, dir));
      var rects := RectMap(root, screen.inner, screen.round);
      var panes := tab.panes[newId := SizedFor(Shell, rects[newId])];
      assert panes.Keys == tab.panes.Keys + {newId};
      ResizeKeepsKeys(panes, rects);
      var after := SplitTab(tab, target, dir, screen).0;
      forall id | id in after.Ids() ensures id < after.layout.nextId {
        assert id in Elems(after.Ids());
        assert id in Elems(tab.Ids()) || id == newId;
      }
      assert tab.active in Elems(after.Ids());
    }
  }

  lemma CloseConsistent(tab: Tab, pane: nat, screen: Screen)
    requires Consistent(tab)
    ensures Consistent(CloseTabPane(tab, pane, screen).0)
  {
    if CloseTabPane(tab, pane, screen).1 == Done {
      assert pane in tab.Ids() by {
        if pane in tab.panes { assert pane in Elems(tab.Ids()); }
      }
      var after := CloseTabPane(tab, pane, screen).0;
      CountIsLength(tab.layout.root);
      RemoveDropsOne(tab.layout.root, pane);
      ResizeKeepsKeys(tab.panes - {pane}, RectMap(after.layout.root, screen.inner, screen.round));
      FewerPanes(tab.panes, pane);
      if CountLeaves(tab.layout.root) > 1 {
        WithoutFirstKeeps(tab.Ids(), pane);
        forall id | id in after.Ids() ensures id < after.layout.nextId {
          assert id in Elems(after.Ids());
        }
        if tab.active != pane {
          assert tab.active in Elems(after.Ids());
        }
      } else {
        assert after.panes.Keys == {};
      }
    }
  }

  lemma FewerPanes(panes: map<nat, Pane>, pane: nat)
    ensures |panes - {pane}| <= |panes|
  {
    assert (panes - {pane}).Keys == panes.Keys - {pane};
    assert |panes - {pane}| == |(panes - {pane}).Keys| && |panes| == |panes.Keys|;
  }

  lemma FocusConsistent(tab: Tab, pane: nat, screen: Screen)
    requires Consistent(tab)
    ensures Consistent(Step(tab, Focus(pane), screen).0)
  {
    if pane in tab.panes {
      assert pane in Elems(tab.Ids());
    }
  }

  lemma EqualizeConsistent(tab: Tab, screen: Screen)
    requires Consistent(tab)
    ensures Consistent(Step(tab, Equalize, screen).0)
  {
    var root := EqualizeNode(tab.layout.root);
    EqualizeKeepsIds(tab.layout.root);
    SameIdsConsistent(tab, root, RectMap(root, screen.inner, screen.round));
  }

  lemma ReshapedConsistent(tab: Tab, shape: Node, screen: Screen)
    requires Consistent(tab) && CountLeaves(shape) == |tab.Ids()|
    ensures Consistent(Reshaped(tab, shape, screen))
  {
    var root := WithIds(shape, tab.Ids());
    WithIdsHasIds(shape, tab.Ids());
    SameIdsConsistent(tab, root, RectMap(root, screen.inner, screen.round));
  }

  lemma RelayoutConsistent(tab: Tab, spec: string, screen: Screen)
    requires Consistent(tab)
    ensures Consistent(RelayoutTab(tab, spec, screen).0)
  {
    if Suits(tab.layout, spec) {
      ReshapedConsistent(tab, LayoutSpec.FromSpec(spec).value.root, screen);
    }
  }

  lemma ExecConsistent(tab: Tab, pane: nat, command: string, screen: Screen)
    requires Consistent(tab)
    ensures Consistent(Step(tab, Exec(pane, command), screen).0)
  {
    var after := Step(tab, Exec(pane, command), screen).0;
    if after != tab {
      assert after.panes.Keys == tab.panes.Keys;
      assert |after.panes| == |after.panes.Keys| && |tab.panes| == |tab.panes.Keys|;
    }
  }

  /** Every request keeps the tab consistent. */
  lemma StepConsistent(tab: Tab, request: Request, screen: Screen)
    requires Consistent(tab)
    ensures Consistent(Step(tab, request, screen).0)
  {
    match request
    case SplitPane(dir, at) => SplitConsistent(tab, if at.Some? then at.value else tab.active, dir, screen);
    case Close(pane) => CloseConsistent(tab, pane, screen);
    case Focus(pane) => FocusConsistent(tab, pane, screen);
    case Equalize => EqualizeConsistent(tab, screen);
    case Relayout(spec) => RelayoutConsistent(tab, spec, screen);
    case Exec(pane, command) => ExecConsistent(tab, pane, command, screen);
  }

  /** Whatever the request, a refusal changes nothing. */
  lemma RefusedChangesNothing(tab: Tab, request: Request, screen: Screen)
    ensures Step(tab, request, screen).1 == Refused ==> Step(tab, request, screen).0 == tab
  {
  }

  function Run(tab: Tab, requests: seq<(Request, Screen)>): Tab
    decreases |requests|
  {
    if requests == [] then tab else Run(Step(tab, requests[0].0, requests[0].1).0, requests[1..])
  }

  /** Consistency holds after every sequence of requests, on whatever screens. */
  lemma {:induction false} RunConsistent(tab: Tab, requests: seq<(Request, Screen)>)
    requires Consistent(tab)
    ensures Consistent(Run(tab, requests))
    decreases |requests|
  {
    if requests != [] {
      StepConsistent(tab, requests[0].0, requests[0].1);
      RunConsistent(Step(tab, requests[0].0, requests[0].1).0, requests[1..]);
    }
  }

  // ----- when a pane is split -----

  /** Six columns and three rows. */
  predicate Usable(rect: Rect) { rect.w >= 6 && rect.h >= 3 }

  /** The thresholds say that both halves of an even split are usable. */
  lemma BigEnoughForHalves(rect: Rect, dir: Direction)
    requires rect.Fits()
    ensures var (a1, a2) := SplitArea(rect, dir, Finite(0.5), RoundHalfUp);
            BigEnough(rect, dir) <==> Usable(a1) && Usable(a2)
  {
    HalfOf(rect.w);
    HalfOf(rect.h);
  }

  lemma HalfOf(extent: nat)
    ensures RoundHalfUp(0.5, extent) == extent / 2 + 1
  {
    assert (extent + 1) as real * 0.5 + 0.5 == extent as real / 2.0 + 1.0;
  }

  /** The checks before a split, in terms of the halves the target would be split into. */
  ghost predicate SplitAllowed(tab: Tab, target: nat, dir: Direction, screen: Screen)
    requires target in tab.Ids() ==> target in RectMap(tab.layout.root, screen.inner, screen.round)
  {
    && target in tab.panes && target in tab.Ids()
    && |tab.panes| <= 99 && tab.layout.nextId <= 0xFFFF_FFFF_FFFF_FFFE
    && var (a1, a2) :=
         SplitArea(RectMap(tab.layout.root, screen.inner, screen.round)[target], dir, Finite(0.5), RoundHalfUp);
       Usable(a1) && Usable(a2)
  }

  lemma IdsHaveRects(tab: Tab, screen: Screen)
    requires Distinct(tab.Ids())
    ensures forall id :: id in tab.Ids() ==>
              && id in RectMap(tab.layout.root, screen.inner, screen.round)
              && RectMap(tab.layout.root, screen.inner, screen.round)[id].Fits()
  {
    RectMapIsLeaves(tab.layout.root, screen.inner, screen.round);
    RectMapFits(tab.layout.root, screen.inner, screen.round);
    forall id | id in tab.Ids() ensures id in RectMap(tab.layout.root, screen.inner, screen.round) {
      assert id in Elems(tab.Ids());
    }
  }

  /** After a split the new pane has a rectangle. */
  lemma NewPaneHasRect(tab: Tab, target: nat, dir: Direction, screen: Screen)
    requires Consistent(tab) && target in tab.Ids()
    ensures tab.layout.nextId in RectMap(
              EqualizeNode(SplitNode(tab.layout.root, target, tab.layout.nextId, dir)), screen.inner, screen.round)
  {
    var newId := tab.layout.nextId;
    var root := EqualizeNode(SplitNode(tab.layout.root, target, newId, dir));
    var i := FirstIndex(tab.Ids(), target);
    SplitPosition(tab.layout.root, target, newId, dir, i);
    InsertKeeps(tab.Ids(), i, newId);
    RectMapIsLeaves(root, screen.inner, screen.round);
    assert newId in Elems(PaneIds(root));
  }

  /** Exactly when a pane is split: its halves are usable, neither panes nor ids run out, and the spawn succeeds. */
  lemma SplitsExactlyWhenRoomy(tab: Tab, at: Option<nat>, dir: Direction, screen: Screen)
    requires Consistent(tab)
    ensures var target := if at.Some? then at.value else tab.active;
            && (target in tab.Ids() ==> target in RectMap(tab.layout.root, screen.inner, screen.round))
            && (Step(tab, SplitPane(dir, at), screen).1 == Done <==>
                  SplitAllowed(tab, target, dir, screen) && screen.spawned)
  {
    var target := if at.Some? then at.value else tab.active;
    IdsHaveRects(tab, screen);
    if target in tab.Ids() {
      NewPaneHasRect(tab, target, dir, screen);
      BigEnoughForHalves(RectMap(tab.layout.root, screen.inner, screen.round)[target], dir);
    }
  }

  /** The same pane in the table before and after, but for its size. */
  ghost predicate SamePrograms(tab: Tab, after: Tab, id: nat) {
    id in tab.panes && id in after.panes && after.panes[id].launch == tab.panes[id].launch
  }

  /** What a split does: a shell under the new id, directly after its target; the focus and all programs stay. */
  lemma SplitAddsShell(tab: Tab, at: Option<nat>, dir: Direction, screen: Screen, i: nat)
    requires Consistent(tab) && Step(tab, SplitPane(dir, at), screen).1 == Done
    requires i < |tab.Ids()| && tab.Ids()[i] == if at.Some? then at.value else tab.active
    ensures var (after, newId) := (Step(tab, SplitPane(dir, at), screen).0, tab.layout.nextId);
            && after.Ids() == tab.Ids()[..i + 1] + [newId] + tab.Ids()[i + 1..]
            && after.layout.nextId == newId + 1 && after.active == tab.active
            && after.panes.Keys == tab.panes.Keys + {newId} && after.panes[newId].launch == Shell
            && forall id :: id in tab.panes ==> SamePrograms(tab, after, id)
  {
    SplitPosition(tab.layout.root, tab.Ids()[i], tab.layout.nextId, dir, i);
    var after := Step(tab, SplitPane(dir, at), screen).0;
    forall id | id in tab.panes ensures id != tab.layout.nextId {
      assert id in Elems(tab.Ids());
    }
  }

  // ----- where runs start -----

  /** Spawns a pane for every rectangle of the layout, a shell where nothing else is to be launched. */
  function Started(layout: LayoutState, launches: map<nat, Launch>, screen: Screen): Tab {
    var rects := RectMap(layout.root, screen.inner, screen.round);
    Tab(layout,
        map id | id in rects :: SizedFor(if id in launches then launches[id] else Shell, rects[id]),
        PaneIds(layout.root)[0])
  }

  lemma StartConsistent(layout: LayoutState, launches: map<nat, Launch>, screen: Screen)
    requires LayoutSpec.Numbered(PaneIds(layout.root), 0, layout.nextId) && layout.nextId <= 100
    ensures Consistent(Started(layout, launches, screen))
    ensures SizedToFit(Started(layout, launches, screen), screen.inner, screen.round)
  {
    var tab := Started(layout, launches, screen);
    StartedHasAll(layout, launches, screen);
    CountDistinct(tab.Ids());
    assert |tab.panes| == |tab.panes.Keys|;
  }

  lemma StartedHasAll(layout: LayoutState, launches: map<nat, Launch>, screen: Screen)
    requires Distinct(PaneIds(layout.root))
    ensures var tab := Started(layout, launches, screen);
            tab.panes.Keys == Elems(tab.Ids()) && SizedToFit(tab, screen.inner, screen.round)
  {
    var rects := RectMap(layout.root, screen.inner, screen.round);
    RectMapIsLeaves(layout.root, screen.inner, screen.round);
    assert Started(layout, launches, screen).panes.Keys == rects.Keys;
    forall id | id in rects ensures HasSizeOf(Started(layout, launches, screen).panes[id], rects[id]) {
    }
  }

  /** Each pane of a started tab runs what was to be launched in it, or a shell; the first one has the focus. */
  lemma StartLaunches(layout: LayoutState, launches: map<nat, Launch>, screen: Screen)
    requires Distinct(PaneIds(layout.root))
    ensures var tab := Started(layout, launches, screen);
            && tab.active == PaneIds(layout.root)[0]
            && forall id :: id in PaneIds(layout.root) ==>
                 && id in tab.panes
                 && (id in launches ==> tab.panes[id].launch == launches[id])
                 && (id !in launches ==> tab.panes[id].launch == Shell)
  {
    StartedHasAll(layout, launches, screen);
    forall id | id in PaneIds(layout.root) ensures id in Started(layout, launches, screen).panes {
      assert id in Elems(PaneIds(layout.root));
    }
  }

  /** A tab started from an accepted spec stays consistent whatever is requested of it. */
  lemma SpecRunsConsistent(
    spec: string, launches: map<nat, Launch>, screen: Screen, requests: seq<(Request, Screen)>)
    requires LayoutSpec.FromSpec(spec).Ok?
    ensures Consistent(Run(Started(LayoutSpec.FromSpec(spec).value, launches, screen), requests))
  {
    LayoutSpec.SpecNumbersPanes(spec);
    StartConsistent(LayoutSpec.FromSpec(spec).value, launches, screen);
    RunConsistent(Started(LayoutSpec.FromSpec(spec).value, launches, screen), requests);
  }

  /** And so does one started from a grid of at most 100 panes. */
  lemma GridRunsConsistent(
    rows: nat, cols: nat, launches: map<nat, Launch>, screen: Screen, requests: seq<(Request, Screen)>)
    requires Max(rows, 1) * Max(cols, 1) <= 100
    ensures Consistent(Run(Started(LayoutSpec.FromGrid(rows, cols), launches, screen), requests))
  {
    LayoutSpec.GridIds(Max(rows, 1), Max(cols, 1), 0);
    StartConsistent(LayoutSpec.FromGrid(rows, cols), launches, screen);
    RunConsistent(Started(LayoutSpec.FromGrid(rows, cols), launches, screen), requests);
  }

  // ----- the last pane -----

  /** The table is the set of leaves exactly while it is not empty. */
  lemma TableIsLeavesUnlessEmpty(tab: Tab)
    requires Consistent(tab)
    ensures tab.panes.Keys == Elems(tab.Ids()) <==> tab.panes != map[]
  {
    assert tab.active in Elems(tab.Ids());
  }

  /** Closing the last pane empties the table, and the tree keeps its leaf. */
  lemma LastCloseEmpties(tab: Tab, pane: nat, screen: Screen)
    requires Consistent(tab) && tab.Ids() == [pane]
    ensures var (after, reply) := Step(tab, Close(pane), screen);
            reply == Done && after.panes == map[] && after.Ids() == [pane]
  {
    CountIsLength(tab.layout.root);
    assert Elems(tab.Ids()) == {pane};
    assert (tab.panes - {pane}).Keys == {};
  }

  /** An emptied tab stays empty in every future: nothing can be split or restarted in it. */
  lemma {:induction false} EmptyStaysEmpty(tab: Tab, requests: seq<(Request, Screen)>)
    requires tab.panes == map[]
    ensures Run(tab, requests).panes == map[]
    decreases |requests|
  {
    if requests != [] {
      EmptyAfterStep(tab, requests[0].0, requests[0].1);
      EmptyStaysEmpty(Step(tab, requests[0].0, requests[0].1).0, requests[1..]);
    }
  }

  lemma EmptyAfterStep(tab: Tab, request: Request, screen: Screen)
    requires tab.panes == map[]
    ensures Step(tab, request, screen).0.panes == map[]
  {
    forall rects: map<nat, Rect> ensures ResizeAll(map[], rects) == map[] {
    }
    forall pane: nat ensures tab.panes - {pane} == map[] {
    }
  }

  /** The counter did not fall, and every id is old or the one just minted. */
  ghost predicate Mints(tab: Tab, after: Tab) {
    && after.layout.nextId >= tab.layout.nextId
    && forall id :: id in after.Ids() ==> id in tab.Ids() || id == tab.layout.nextId < after.layout.nextId
  }

  lemma SplitMints(tab: Tab, target: nat, dir: Direction, screen: Screen)
    requires Distinct(tab.Ids())
    ensures Mints(tab, SplitTab(tab, target, dir, screen).0)
  {
    if SplitTab(tab, target, dir, screen).1 == Done {
      SplitPosition(tab.layout.root, target, tab.layout.nextId, dir, FirstIndex(tab.Ids(), target));
    }
  }

  lemma CloseMints(tab: Tab, pane: nat)
    requires Distinct(tab.Ids())
    ensures Mints(tab, Closed(tab, pane))
  {
    if pane in tab.Ids() {
      RemoveDropsOne(tab.layout.root, pane);
      WithoutFirstKeeps(tab.Ids(), pane);
      var after := Closed(tab, pane);
      forall id | id in after.Ids() ensures id in tab.Ids() {
        assert id in Elems(after.Ids());
      }
    }
  }

  /** One request only ever adds the id it mints, and never lowers the counter. */
  lemma StepMints(tab: Tab, request: Request, screen: Screen)
    requires Consistent(tab)
    ensures Mints(tab, Step(tab, request, screen).0)
  {
    match request
    case SplitPane(dir, at) => SplitMints(tab, if at.Some? then at.value else tab.active, dir, screen);
    case Close(pane) => CloseMints(tab, pane);
    case Focus(_) =>
    case Equalize => EqualizeKeepsIds(tab.layout.root);
    case Relayout(spec) =>
      if Suits(tab.layout, spec) {
        WithIdsHasIds(LayoutSpec.FromSpec(spec).value.root, tab.Ids());
      }
    case Exec(_, _) =>
  }

  /** Ids are never reused: one that has been handed out and is gone now stays gone for every future. */
  lemma {:induction false} IdsNeverReused(tab: Tab, requests: seq<(Request, Screen)>, id: nat)
    requires Consistent(tab) && id < tab.layout.nextId && id !in tab.Ids()
    ensures id !in Run(tab, requests).Ids()
    decreases |requests|
  {
    if requests != [] {
      StepConsistent(tab, requests[0].0, requests[0].1);
      StepMints(tab, requests[0].0, requests[0].1);
      IdsNeverReused(Step(tab, requests[0].0, requests[0].1).0, requests[1..], id);
    }
  }

  // ----- sizes -----

  /** The columns and rows of a rectangle, but at least one of each. */
  ghost predicate HasSizeOf(pane: Pane, rect: Rect) {
    && pane.cols == (if rect.w == 0 then 1 else rect.w)
    && pane.rows == (if rect.h == 0 then 1 else rect.h)
  }

  /** Every pane in the table has the size of its rectangle. */
  ghost predicate SizedToFit(tab: Tab, inner: Rect, round: Rounding) {
    var rects := RectMap(tab.layout.root, inner, round);
    forall id :: id in tab.panes ==> id in rects && HasSizeOf(tab.panes[id], rects[id])
  }

  lemma ResizedFits(tab: Tab, screen: Screen)
    requires Distinct(tab.Ids()) && tab.panes.Keys <= Elems(tab.Ids())
    ensures SizedToFit(Resized(tab, screen), screen.inner, screen.round)
  {
    RectMapIsLeaves(tab.layout.root, screen.inner, screen.round);
  }

  /** On an unchanging screen every request keeps the running programs' sizes equal to what is drawn. */
  lemma StepKeepsSizes(tab: Tab, request: Request, screen: Screen)
    requires Consistent(tab) && SizedToFit(tab, screen.inner, screen.round)
    ensures SizedToFit(Step(tab, request, screen).0, screen.inner, screen.round)
  {
    var (after, reply) := Step(tab, request, screen);
    StepConsistent(tab, request, screen);
    if reply == Done && !request.Focus? && !request.Exec? {
      ResizeTwice(after, request, tab, screen);
      ResizedFits(after, screen);
    }
  }

  /** So while the screen stays as it is, a tab's programs always have the sizes that are drawn. */
  lemma {:induction false} RunKeepsSizes(tab: Tab, requests: seq<(Request, Screen)>, inner: Rect, round: Rounding)
    requires Consistent(tab) && SizedToFit(tab, inner, round)
    requires forall i :: 0 <= i < |requests| ==> requests[i].1.inner == inner && requests[i].1.round == round
    ensures SizedToFit(Run(tab, requests), inner, round)
    decreases |requests|
  {
    if requests != [] {
      StepConsistent(tab, requests[0].0, requests[0].1);
      StepKeepsSizes(tab, requests[0].0, requests[0].1);
      RunKeepsSizes(Step(tab, requests[0].0, requests[0].1).0, requests[1..], inner, round);
    }
  }

  /** The requests that reshape the tree end by resizing, and resizing again would change nothing. */
  lemma ResizeTwice(after: Tab, request: Request, tab: Tab, screen: Screen)
    requires (after, Done) == Step(tab, request, screen) && !request.Focus? && !request.Exec?
    ensures Resized(after, screen) == after
  {
  }
}
