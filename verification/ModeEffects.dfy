/** What private modes show after a control sequence, read off its bytes. */
module ModeEffects {
  import opened Prelude
  import opened ControlFilter
  import opened Replay
  import ModeLaws

  // ----- what a mode number says about the state -----

  predicate IsScreen(num: nat) { num == 47 || num == 1047 || num == 1049 }

  predicate IsMouse(num: nat) { num == 9 || num == 1000 || num == 1002 || num == 1003 }

  predicate IsEncoding(num: nat) { num == 1005 || num == 1006 || num == 1015 }

  predicate IsKnown(num: nat) {
    IsScreen(num) || IsMouse(num) || IsEncoding(num) || num == 1004 || num == 2004 || num == 2026
  }

  /** The mode of this number is on. */
  ghost predicate Shows(m: Modes, num: nat)
    requires IsKnown(num)
  {
    match num
    case 9 => m.protocol == Press
    case 1000 => m.protocol == X10
    case 1002 => m.protocol == Btn
    case 1003 => m.protocol == Any
    case 1005 => m.encoding == Utf8
    case 1006 => m.encoding == Sgr
    case 1015 => m.encoding == Urxvt
    case 1004 => m.focusReporting
    case 2004 => m.bracketedPaste
    case 2026 => m.syncOpen
    case _ => m.alternate
  }

  /** Numbers for the same mode: the three ways to ask for the alternate screen are one. */
  predicate SameMode(a: nat, b: nat) { a == b || (IsScreen(a) && IsScreen(b)) }

  /** Modes of which only one can be on. */
  predicate Rivals(a: nat, b: nat) { (IsMouse(a) && IsMouse(b)) || (IsEncoding(a) && IsEncoding(b)) }

  /** What a mode shows after the mode `num` was set or cleared: its own state, or off where a rival was set. */
  ghost predicate ShownAfter(before: Modes, after: Modes, num: nat, on: bool, b: nat)
    requires IsKnown(b)
  {
    Shows(after, b) <==>
      if IsKnown(num) && SameMode(num, b) then on else Shows(before, b) && !(on && Rivals(num, b))
  }

  /** The keyboard stacks change places exactly when the screen changes. */
  ghost predicate StacksFollowScreen(before: Modes, after: Modes) {
    if after.alternate == before.alternate
    then after.kitty == before.kitty && after.inactiveKitty == before.inactiveKitty
    else after.kitty == before.inactiveKitty && after.inactiveKitty == before.kitty
  }

  lemma ShownAfterMouse(m: Modes, num: nat, on: bool, b: nat)
    requires IsMouse(num) && IsKnown(b)
    ensures ShownAfter(m, ApplyDecset(m, num, on), num, on, b)
  {
    ModeLaws.MouseMode(m, num, on);
  }

  lemma ShownAfterEncoding(m: Modes, num: nat, on: bool, b: nat)
    requires IsEncoding(num) && IsKnown(b)
    ensures ShownAfter(m, ApplyDecset(m, num, on), num, on, b)
  {
    ModeLaws.CoordinateMode(m, num, on);
  }

  lemma ShownAfterOther(m: Modes, num: nat, on: bool, b: nat)
    requires !IsMouse(num) && !IsEncoding(num) && IsKnown(b)
    ensures ShownAfter(m, ApplyDecset(m, num, on), num, on, b)
  {
  }

  lemma StacksAfter(m: Modes, num: nat, on: bool)
    ensures StacksFollowScreen(m, ApplyDecset(m, num, on))
  {
  }

  lemma OutputOf(m: Modes, param: Bytes, final: byte)
    requires AllDigits(param)
    ensures DecMode(m, param, final).1
         == (if param != [] && ModeLaws.Value(param) == 1047
             then (if final == 0x6c && m.alternate then [0x1b, 0x5b, 0x32, 0x4a] else []) + [0x1b, 0x5b, 0x3f, 0x34, 0x37, final]
             else [0x1b, 0x5b, 0x3f] + param + [final])
  {
    ModeLaws.ReadsDecimalValue(param);
    assert [ESC, 0x5b, 0x3f] + FORTY_SEVEN + [final] == [0x1b, 0x5b, 0x3f, 0x34, 0x37, final];
    assert [] + PrivateMode(param, final) == PrivateMode(param, final);
  }

  /**
   * ESC [ ? number h and ESC [ ? number l from the ground state, for every string of digits: afterwards the mode of
   * that number is on, or off; a rival of a mode set is off; every other mode shows what it did. A number that names
   * no mode changes nothing that modes show.
   */
  lemma SetsWhatItNames(m: Machine, param: Bytes, final: byte, b: nat)
    requires m.parser == CLEAN && AllDigits(param) && |param| < CSI_MAX && (final == 0x68 || final == 0x6c) && IsKnown(b)
    ensures var after := Feed(m, [0x1b, 0x5b, 0x3f] + param + [final]).0;
            && after.parser == m.parser && after.clip == m.clip && after.core.answers == m.core.answers
            && ShownAfter(m.core.modes, after.core.modes, ModeLaws.Value(param), final == 0x68, b)
            && StacksFollowScreen(m.core.modes, after.core.modes)
  {
    FeedMode(m, param, final);
    ModeLaws.ReadsDecimalValue(param);
    var (num, on) := (ModeLaws.Value(param), final == 0x68);
    StacksAfter(m.core.modes, num, on);
    if IsMouse(num) {
      ShownAfterMouse(m.core.modes, num, on, b);
    } else if IsEncoding(num) {
      ShownAfterEncoding(m.core.modes, num, on, b);
    } else {
      ShownAfterOther(m.core.modes, num, on, b);
    }
  }

  /** A control sequence as it is spelled. */
  lemma FeedSpelled(m: Machine, whole: Bytes, body: Bytes, final: byte)
    requires m.parser == CLEAN && |body| <= CSI_MAX && 0x40 <= final <= 0x7e && whole == [ESC, 0x5b] + body + [final]
    requires forall i :: 0 <= i < |body| ==> IsParam(body[i])
    ensures Feed(m, whole) == (m.(core := FinishCsi(m.core, body, final).0), FinishCsi(m.core, body, final).1)
  {
    CsiSequence(m, body, final);
  }

  lemma ModeSpelled(param: Bytes, final: byte)
    requires AllDigits(param)
    ensures [0x1b, 0x5b, 0x3f] + param + [final] == [ESC, 0x5b] + ([0x3f] + param) + [final]
    ensures forall i :: 0 <= i < |[0x3f] + param| ==> IsParam(([0x3f] + param)[i])
  {
  }

  lemma FeedMode(m: Machine, param: Bytes, final: byte)
    requires m.parser == CLEAN && AllDigits(param) && |param| < CSI_MAX && (final == 0x68 || final == 0x6c)
    ensures Feed(m, [0x1b, 0x5b, 0x3f] + param + [final])
         == (WithModes(m, DecMode(m.core.modes, param, final).0), DecMode(m.core.modes, param, final).1)
  {
    ModeSpelled(param, final);
    FeedSpelled(m, [0x1b, 0x5b, 0x3f] + param + [final], [0x3f] + param, final);
    SingleMode(m.core, param, final);
  }

  /** What is passed on: the same bytes, but 47 for 1047, after a cleared screen when that one is left. */
  lemma PassesOnMode(m: Machine, param: Bytes, final: byte)
    requires m.parser == CLEAN && AllDigits(param) && |param| < CSI_MAX && (final == 0x68 || final == 0x6c)
    ensures Feed(m, [0x1b, 0x5b, 0x3f] + param + [final]).1
         == (if param != [] && ModeLaws.Value(param) == 1047
             then (if final == 0x6c && m.core.modes.alternate then [0x1b, 0x5b, 0x32, 0x4a] else [])
                  + [0x1b, 0x5b, 0x3f, 0x34, 0x37, final]
             else [0x1b, 0x5b, 0x3f] + param + [final])
  {
    FeedMode(m, param, final);
    OutputOf(m.core.modes, param, final);
  }

  /** A control sequence that is neither about the keyboard nor sets or clears private modes passes and has no effect. */
  lemma OthersPass(m: Machine, body: Bytes, final: byte)
    requires m.parser == CLEAN && |body| <= CSI_MAX && 0x40 <= final <= 0x7e && final != 0x75
    requires forall i :: 0 <= i < |body| ==> IsParam(body[i])
    requires body == [] || body[0] != 0x3f || final !in {0x68, 0x6c} || exists i :: 1 <= i < |body| && body[i] !in PARAMETERS
    ensures Feed(m, [0x1b, 0x5b] + body + [final]) == (m, [0x1b, 0x5b] + body + [final])
  {
    FeedSpelled(m, [0x1b, 0x5b] + body + [final], body, final);
    if i :| 1 <= i < |body| && body[i] !in PARAMETERS {
      assert !IsDigit(body[i]) && body[i] != SEMI;
    }
  }

  const PARAMETERS: set<int> := {0x30, 0x31, 0x32, 0x33, 0x34, 0x35, 0x36, 0x37, 0x38, 0x39, 0x3b}

  /** Several numbers in one sequence are set or cleared one after the other. */
  lemma SetsEachInTurn(m: Machine, params: seq<Bytes>, final: byte)
    requires m.parser == CLEAN && params != [] && (final == 0x68 || final == 0x6c)
    requires |JoinWith(params, SEMI)| < CSI_MAX && forall k :: 0 <= k < |params| ==> AllDigits(params[k])
    ensures Feed(m, [0x1b, 0x5b, 0x3f] + JoinWith(params, SEMI) + [final]) == OneByOne(m, params, final)
  {
    var joined := JoinWith(params, SEMI);
    JoinedParams(params);
    assert forall k :: 0 <= k < |params| ==> SEMI !in params[k];
    JoinThenSplit(params, SEMI);
    var body := [0x3f] + joined;
    assert body[1..] == joined;
    assert [0x1b, 0x5b, 0x3f] + joined + [final] == [ESC, 0x5b] + body + [final];
    FeedSpelled(m, [0x1b, 0x5b, 0x3f] + joined + [final], body, final);
    InTurn(m, params, final);
  }

  lemma {:induction false} JoinedParams(params: seq<Bytes>)
    requires params != [] && forall k :: 0 <= k < |params| ==> AllDigits(params[k])
    ensures forall i :: 0 <= i < |JoinWith(params, SEMI)| ==> IsDigit(JoinWith(params, SEMI)[i]) || JoinWith(params, SEMI)[i] == SEMI
    ensures forall k :: 0 <= k < |params| ==> |params[k]| <= |JoinWith(params, SEMI)|
  {
    if |params| > 1 {
      JoinedParams(params[1..]);
    }
  }

  /** The effect and the output of a list of modes, each in a sequence of its own. */
  ghost function OneByOne(m: Machine, params: seq<Bytes>, final: byte): (Machine, Bytes)
    decreases |params|
  {
    if params == [] then (m, [])
    else
      var (m1, o1) := Feed(m, [0x1b, 0x5b, 0x3f] + params[0] + [final]);
      var (m2, o2) := OneByOne(m1, params[1..], final);
      (m2, o1 + o2)
  }

  lemma {:induction false} InTurn(m: Machine, params: seq<Bytes>, final: byte)
    requires m.parser == CLEAN && (final == 0x68 || final == 0x6c)
    requires forall k :: 0 <= k < |params| ==> AllDigits(params[k]) && |params[k]| < CSI_MAX
    ensures OneByOne(m, params, final)
         == (WithModes(m, DecModes(m.core.modes, params, final).0), DecModes(m.core.modes, params, final).1)
    decreases |params|
  {
    if params != [] {
      FeedMode(m, params[0], final);
      InTurn(WithModes(m, DecMode(m.core.modes, params[0], final).0), params[1..], final);
    }
  }

  /** ESC c switches every mode off and empties the keyboard stacks; so does starting. */
  lemma ResetShowsNothing(m: Machine, b: nat)
    requires m.parser == CLEAN && IsKnown(b)
    ensures var after := Feed(m, [0x1b, 0x63]).0.core.modes;
            after == INITIAL_MODES && !Shows(after, b) && after.kitty == after.inactiveKitty == []
    ensures Feed(m, [0x1b, 0x63]).1 == [0x1b, 0x63]
  {
    var escaped := Goto(m, Escape);
    assert Step(m, ESC) == (escaped, []);
    assert [ESC as byte, 0x63][1..] == [0x63];
    FeedOne(escaped, 0x63);
    assert Feed(m, [0x1b, 0x63]) == (Step(escaped, 0x63).0, [] + Step(escaped, 0x63).1);
  }
}
