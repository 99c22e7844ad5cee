/** Laws of the terminal modes that control sequences set and clear. */
module ModeLaws {
  import opened Prelude
  import opened ControlFilter

  // ----- private modes -----

  /** Which part of the state a private mode number speaks of. */
  datatype Family = Screen | Sync | Paste | FocusEvents | Mouse | Coordinates | Unknown

  function FamilyOf(num: nat): Family {
    if num == 47 || num == 1047 || num == 1049 then Screen
    else if num == 2026 then Sync
    else if num == 2004 then Paste
    else if num == 1004 then FocusEvents
    else if num == 9 || num == 1000 || num == 1002 || num == 1003 then Mouse
    else if num == 1005 || num == 1006 || num == 1015 then Coordinates
    else Unknown
  }

  /** `m` with one family's part taken from `from`. */
  function Graft(m: Modes, from: Modes, f: Family): Modes {
    match f
    case Screen => m.(kitty := from.kitty, inactiveKitty := from.inactiveKitty, alternate := from.alternate)
    case Sync => m.(syncOpen := from.syncOpen)
    case Paste => m.(bracketedPaste := from.bracketedPaste)
    case FocusEvents => m.(focusReporting := from.focusReporting)
    case Mouse => m.(protocol := from.protocol)
    case Coordinates => m.(encoding := from.encoding)
    case Unknown => m
  }

  /** A private mode changes its own family's part only. */
  lemma StaysInFamily(m: Modes, num: nat, on: bool)
    ensures ApplyDecset(m, num, on) == Graft(m, ApplyDecset(m, num, on), FamilyOf(num))
  {
    match FamilyOf(num)
    case Screen =>
    case Sync =>
    case Paste =>
    case FocusEvents =>
    case Mouse =>
    case Coordinates =>
    case Unknown =>
  }

  /** The protocol a mouse mode stands for. */
  function ProtocolOf(num: nat): MouseProtocol {
    if num == 9 then Press else if num == 1000 then X10 else if num == 1002 then Btn else Any
  }

  function EncodingOf(num: nat): MouseEncoding {
    if num == 1005 then Utf8 else if num == 1006 then Sgr else Urxvt
  }

  lemma MouseMode(m: Modes, num: nat, on: bool)
    requires FamilyOf(num) == Mouse
    ensures ApplyDecset(m, num, on) == ToggleProtocol(m, ProtocolOf(num), on)
  {
  }

  lemma CoordinateMode(m: Modes, num: nat, on: bool)
    requires FamilyOf(num) == Coordinates
    ensures ApplyDecset(m, num, on) == ToggleEncoding(m, EncodingOf(num), on)
  {
  }

  lemma MouseLooksAtMouse(m: Modes, other: Modes, num: nat, on: bool)
    requires FamilyOf(num) == Mouse && other.protocol == m.protocol
    ensures ApplyDecset(other, num, on) == other.(protocol := ApplyDecset(m, num, on).protocol)
  {
    MouseMode(m, num, on);
    MouseMode(other, num, on);
  }

  lemma CoordinatesLookAtCoordinates(m: Modes, other: Modes, num: nat, on: bool)
    requires FamilyOf(num) == Coordinates && other.encoding == m.encoding
    ensures ApplyDecset(other, num, on) == other.(encoding := ApplyDecset(m, num, on).encoding)
  {
    CoordinateMode(m, num, on);
    CoordinateMode(other, num, on);
  }

  /** And looks at nothing else: where the family's part agrees, it does the same. */
  lemma LooksInFamily(m: Modes, other: Modes, num: nat, on: bool)
    requires Graft(other, m, FamilyOf(num)) == other
    ensures Graft(other, ApplyDecset(m, num, on), FamilyOf(num)) == ApplyDecset(other, num, on)
  {
    StaysInFamily(m, num, on);
    match FamilyOf(num)
    case Mouse => MouseLooksAtMouse(m, other, num, on);
    case Coordinates => CoordinatesLookAtCoordinates(m, other, num, on);
    case _ => OthersLookAtThemselves(m, other, num, on);
  }

  lemma OthersLookAtThemselves(m: Modes, other: Modes, num: nat, on: bool)
    requires FamilyOf(num) != Mouse && FamilyOf(num) != Coordinates && Graft(other, m, FamilyOf(num)) == other
    ensures Graft(other, ApplyDecset(m, num, on), FamilyOf(num)) == ApplyDecset(other, num, on)
  {
  }

  lemma GraftsCommute(m: Modes, p: Modes, f: Family, q: Modes, g: Family)
    requires f != g
    ensures Graft(Graft(m, p, f), q, g) == Graft(Graft(m, q, g), p, f)
    ensures Graft(Graft(m, p, f), m, g) == Graft(m, p, f)
  {
  }

  /** Modes of different families are independent: the order in which they are set or cleared does not matter. */
  lemma FamiliesCommute(m: Modes, a: nat, x: bool, b: nat, y: bool)
    requires FamilyOf(a) != FamilyOf(b)
    ensures ApplyDecset(ApplyDecset(m, a, x), b, y) == ApplyDecset(ApplyDecset(m, b, y), a, x)
  {
    var (p, q) := (ApplyDecset(m, a, x), ApplyDecset(m, b, y));
    var (f, g) := (FamilyOf(a), FamilyOf(b));
    StaysInFamily(m, a, x);
    StaysInFamily(m, b, y);
    GraftsCommute(m, p, f, q, g);
    GraftsCommute(m, q, g, p, f);
    LooksInFamily(m, q, a, x);
    LooksInFamily(m, p, b, y);
  }

  /** The program stays on the alternate screen while it sends these bytes. */
  ghost predicate StaysAlternate(m: Machine, input: Bytes)
    decreases |input|
  {
    m.core.modes.alternate && (input != [] ==> StaysAlternate(Step(m, input[0]).0, input[1..]))
  }

  /** A private mode that does not leave the alternate screen leaves the other screen's stack alone. */
  lemma {:induction false} DecModesKeepOther(m: Modes, params: seq<Bytes>, final: byte)
    requires m.alternate && DecModes(m, params, final).0.alternate && (final == 0x68 || final == 0x6c)
    ensures DecModes(m, params, final).0.inactiveKitty == m.inactiveKitty
    decreases |params|
  {
    if params != [] {
      var next := DecMode(m, params[0], final).0;
      if next.alternate {
        DecModesKeepOther(next, params[1..], final);
      } else {
        NeverEnters(next, params[1..]);
      }
    }
  }

  /** Clearing modes never enters the alternate screen. */
  lemma {:induction false} NeverEnters(m: Modes, params: seq<Bytes>)
    requires !m.alternate
    ensures !DecModes(m, params, 0x6c).0.alternate
    decreases |params|
  {
    if params != [] {
      NeverEnters(DecMode(m, params[0], 0x6c).0, params[1..]);
    }
  }

  lemma CsiUKeepsOther(core: Core, body: Bytes)
    ensures HandleCsiU(core, body).modes.inactiveKitty == core.modes.inactiveKitty
    ensures HandleCsiU(core, body).modes.alternate == core.modes.alternate
  {
  }

  lemma FinishCsiKeepsOther(core: Core, body: Bytes, final: byte)
    requires core.modes.alternate && FinishCsi(core, body, final).0.modes.alternate
    ensures FinishCsi(core, body, final).0.modes.inactiveKitty == core.modes.inactiveKitty
  {
    var c := if final == 0x75 then HandleCsiU(core, body) else core;
    CsiUKeepsOther(core, body);
    if IsDecModes(body, final) {
      DecModesKeepOther(c.modes, SplitOn(body[1..], SEMI), final);
    }
  }

  lemma StepKeepsOther(m: Machine, b: byte)
    requires m.core.modes.alternate && Step(m, b).0.core.modes.alternate
    ensures Step(m, b).0.core.modes.inactiveKitty == m.core.modes.inactiveKitty
  {
    if m.parser.mode == Csi && 0x40 <= b <= 0x7e && !m.parser.overflow {
      FinishCsiKeepsOther(m.core, m.parser.buffer, b);
    }
  }

  lemma {:induction false} OtherStackWaits(m: Machine, input: Bytes)
    requires StaysAlternate(m, input)
    ensures Feed(m, input).0.core.modes.alternate
    ensures Feed(m, input).0.core.modes.inactiveKitty == m.core.modes.inactiveKitty
    decreases |input|
  {
    if input != [] {
      StepKeepsOther(m, input[0]);
      OtherStackWaits(Step(m, input[0]).0, input[1..]);
    }
  }

  /**
   * Each screen keeps its own keyboard stack: after entering the alternate screen, whatever a program sends while it
   * stays there, leaving finds the main screen's stack as it was, and the alternate screen's is kept for its return.
   */
  lemma ScreensKeepTheirStacks(m: Machine, enter: nat, input: Bytes, leave: nat)
    requires FamilyOf(enter) == FamilyOf(leave) == Screen && !m.core.modes.alternate
    requires StaysAlternate(m.(core := m.core.(modes := ApplyDecset(m.core.modes, enter, true))), input)
    ensures var there := m.(core := m.core.(modes := ApplyDecset(m.core.modes, enter, true)));
            var before := Feed(there, input).0.core.modes;
            var back := ApplyDecset(before, leave, false);
            && there.core.modes.kitty == m.core.modes.inactiveKitty
            && !back.alternate && back.kitty == m.core.modes.kitty && back.inactiveKitty == before.kitty
  {
    OtherStackWaits(m.(core := m.core.(modes := ApplyDecset(m.core.modes, enter, true))), input);
  }

  // ----- the keyboard stack -----

  /** Popping undoes pushing, up to the entry that a push onto a full stack forgets. */
  lemma PopUndoesPush(stack: seq<Flags>, flags: Flags)
    ensures KittyActive(KittyPush(stack, flags)) == flags
    ensures KittyPop(KittyPush(stack, flags), 1) == stack <==> |stack| < KITTY_MAX_DEPTH
    ensures KittyPop(KittyPush(stack, flags), 0) == KittyPop(KittyPush(stack, flags), 1)
  {
    var pushed := KittyPush(stack, flags);
    if |stack| < KITTY_MAX_DEPTH {
      assert pushed[..|pushed| - 1] == stack;
    } else {
      assert |pushed[..|pushed| - 1]| == |stack| - 1;
    }
  }

  ghost predicate StacksBounded(m: Modes) {
    |m.kitty| <= KITTY_MAX_DEPTH && |m.inactiveKitty| <= KITTY_MAX_DEPTH
  }

  lemma {:induction false} DecModesKeepStacks(m: Modes, params: seq<Bytes>, final: byte)
    requires StacksBounded(m)
    ensures StacksBounded(DecModes(m, params, final).0)
    decreases |params|
  {
    if params != [] {
      DecModesKeepStacks(DecMode(m, params[0], final).0, params[1..], final);
    }
  }

  lemma CsiUKeepsStacks(core: Core, body: Bytes)
    requires StacksBounded(core.modes)
    ensures StacksBounded(HandleCsiU(core, body).modes)
  {
  }

  /** Whatever a program sends, neither keyboard stack grows beyond 32 entries. */
  lemma {:induction false} StacksStayBounded(m: Machine, input: Bytes)
    requires StacksBounded(m.core.modes)
    ensures StacksBounded(Feed(m, input).0.core.modes)
    decreases |input|
  {
    if input != [] {
      var (core, body) := (m.core, m.parser.buffer);
      var c := if input[0] == 0x75 then HandleCsiU(core, body) else core;
      CsiUKeepsStacks(core, body);
      if IsDecModes(body, input[0]) {
        DecModesKeepStacks(c.modes, SplitOn(body[1..], SEMI), input[0]);
      }
      StacksStayBounded(Step(m, input[0]).0, input[1..]);
    }
  }

  // ----- numbers -----

  /** The number a string of digits stands for, by place value. */
  ghost function Value(digits: Bytes): nat
    requires AllDigits(digits)
  {
    if digits == [] then 0
    else
      var n := |digits| - 1;
      10 * Value(digits[..n]) + (digits[n] - 0x30)
  }

  lemma ValueStep(s: Bytes, k: nat)
    requires k < |s| && AllDigits(s[..k + 1])
    ensures AllDigits(s[..k]) && Value(s[..k + 1]) == 10 * Value(s[..k]) + (s[k] - 0x30)
  {
    assert s[..k + 1][..k] == s[..k];
    forall i | 0 <= i < k ensures IsDigit(s[..k][i]) {
      assert s[..k + 1][i] == s[i];
    }
  }

  lemma {:induction false} PrefixIsLess(s: Bytes, k: nat)
    requires k <= |s| && AllDigits(s)
    ensures Value(s[..k]) <= Value(s)
    decreases |s| - k
  {
    if k == |s| {
      assert s[..k] == s;
    } else {
      PrefixIsLess(s, k + 1);
      ValueStep(s, k);
    }
  }

  /** Reading on, after the first `k` bytes were read as digits. */
  lemma {:induction false} DecimalReads(s: Bytes, k: nat)
    requires k <= |s| && AllDigits(s[..k]) && Value(s[..k]) <= 0xFFFF_FFFF
    ensures Decimal(s[k..], Value(s[..k])) == if AllDigits(s) && Value(s) <= 0xFFFF_FFFF then Some(Value(s)) else None
    decreases |s| - k
  {
    if k == |s| {
      assert s[..k] == s && s[k..] == [];
    } else if IsDigit(s[k]) {
      assert s[k..][1..] == s[k + 1..] && s[k..][0] == s[k];
      assert AllDigits(s[..k + 1]);
      ValueStep(s, k);
      if Value(s[..k + 1]) <= 0xFFFF_FFFF {
        DecimalReads(s, k + 1);
      } else if AllDigits(s) {
        PrefixIsLess(s, k + 1);
      }
    }
  }

  /** A parameter is read as its decimal value exactly when it is all digits and fits 32 bits: nothing wraps around. */
  lemma ReadsDecimalValue(s: Bytes)
    ensures ParseU32(s) == if s != [] && AllDigits(s) && Value(s) <= 0xFFFF_FFFF then Some(Value(s)) else None
  {
    assert s[..0] == [] && s[0..] == s;
    DecimalReads(s, 0);
  }

  // ----- text -----

  /** Text without escape characters passes through the filter unchanged and has no effect. */
  lemma {:induction false} PlainTextPasses(m: Machine, text: Bytes)
    requires m.parser.mode == Ground && ESC !in text
    ensures Feed(m, text) == (m, text)
    decreases |text|
  {
    if text != [] {
      PlainTextPasses(m, text[1..]);
      assert [text[0]] + text[1..] == text;
    }
  }
}
