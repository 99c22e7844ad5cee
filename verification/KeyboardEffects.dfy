/** What the control sequences of the keyboard protocol do to the stack of flags, read off their bytes. */
module KeyboardEffects {
  import opened Prelude
  import opened ControlFilter
  import opened Replay
  import opened ModeLaws
  import ModeEffects

  // ----- flags -----

  /** The flags are the supported bits of the number, of value 1, 2 and 8, and nothing else. */
  ghost predicate AreFlagsOf(flags: Flags, n: nat) {
    && (flags & 1 != 0 <==> n % 2 == 1)
    && (flags & 2 != 0 <==> n / 2 % 2 == 1)
    && (flags & 8 != 0 <==> n / 8 % 2 == 1)
    && flags & 0xF4 == 0
  }

  lemma SupportedAreFlags(n: nat)
    ensures AreFlagsOf(SupportedFlags(n), n)
  {
    BitsOf(n % 256);
    LowBits(n, n / 256, n % 256);
    Masked((n % 256) as bv8);
  }

  lemma LowBits(n: nat, high: nat, low: nat)
    requires n == 256 * high + low
    ensures n % 2 == low % 2 && n / 2 % 2 == low / 2 % 2 && n / 8 % 2 == low / 8 % 2
  {
    SameParity(n, low, 128 * high);
    DividedBy(n, 2, 128 * high + low / 2, low % 2);
    SameParity(n / 2, low / 2, 64 * high);
    DividedBy(n, 8, 32 * high + low / 8, low % 8);
    SameParity(n / 8, low / 8, 16 * high);
  }

  lemma SameParity(n: nat, m: nat, k: nat)
    requires n == 2 * k + m
    ensures n % 2 == m % 2
  {
  }

  lemma DividedBy(n: nat, d: nat, q: nat, r: nat)
    requires (d == 2 || d == 8) && r < d && n == d * q + r
    ensures n / d == q
  {
  }

  lemma Masked(x: Flags)
    ensures var y := x & KITTY_SUPPORTED; y & 1 == x & 1 && y & 2 == x & 2 && y & 8 == x & 8 && y & 0xF4 == 0
  {
  }

  lemma BitsOf(n: nat)
    requires n < 256
    ensures ((n as bv8) & 1 != 0) <==> n % 2 == 1
    ensures ((n as bv8) & 2 != 0) <==> n / 2 % 2 == 1
    ensures ((n as bv8) & 8 != 0) <==> n / 8 % 2 == 1
  {
  }

  // ----- one sequence -----

  /** ESC [ kind body u, as it reaches the handler. */
  lemma FeedU(m: Machine, kind: byte, body: Bytes)
    requires m.parser == CLEAN && |body| < CSI_MAX && IsParam(kind) && forall i :: 0 <= i < |body| ==> IsParam(body[i])
    ensures Feed(m, [0x1b, 0x5b, kind] + body + [0x75])
         == (m.(core := HandleCsiU(m.core, [kind] + body)), [0x1b, 0x5b, kind] + body + [0x75])
  {
    assert [0x1b, 0x5b, kind] + body + [0x75] == [ESC, 0x5b] + ([kind] + body) + [0x75];
    ModeEffects.FeedSpelled(m, [0x1b, 0x5b, kind] + body + [0x75], [kind] + body, 0x75);
  }

  /** The parameter is a number that fits 32 bits, or is left out. */
  ghost predicate IsNumber(digits: Bytes) { AllDigits(digits) && Value(digits) <= 0xFFFF_FFFF }

  lemma ReadsOrDefault(digits: Bytes, default: nat)
    ensures ParseDefault(digits, default)
         == if !IsNumber(digits) then None else if digits == [] then Some(default) else Some(Value(digits))
  {
    ReadsDecimalValue(digits);
  }

  /** ESC [ > flags u puts the flags on top; a stack of 32 forgets its oldest entry. */
  lemma PushPutsOnTop(m: Machine, digits: Bytes)
    requires m.parser == CLEAN && |digits| < CSI_MAX && forall i :: 0 <= i < |digits| ==> IsParam(digits[i])
    ensures var after := Feed(m, [0x1b, 0x5b, 0x3e] + digits + [0x75]).0;
            var (s, t) := (m.core.modes.kitty, after.core.modes.kitty);
            && after == m.(core := m.core.(modes := m.core.modes.(kitty := t)))
            && (!IsNumber(digits) ==> t == s)
            && (IsNumber(digits) ==>
                  && t != [] && AreFlagsOf(t[|t| - 1], Value(digits))
                  && t[..|t| - 1] == if |s| < 32 then s else s[1..])
  {
    FeedU(m, 0x3e, digits);
    assert ([0x3e] + digits)[1..] == digits;
    ReadsOrDefault(digits, 0);
    if IsNumber(digits) {
      SupportedAreFlags(Value(digits));
    }
  }

  /** ESC [ < count u takes entries off the top: one if the count is left out or zero, never more than there are. */
  lemma PopTakesOff(m: Machine, digits: Bytes)
    requires m.parser == CLEAN && |digits| < CSI_MAX && forall i :: 0 <= i < |digits| ==> IsParam(digits[i])
    ensures var after := Feed(m, [0x1b, 0x5b, 0x3c] + digits + [0x75]).0;
            var (s, t) := (m.core.modes.kitty, after.core.modes.kitty);
            && after == m.(core := m.core.(modes := m.core.modes.(kitty := t)))
            && t <= s
            && (!IsNumber(digits) ==> t == s)
            && (IsNumber(digits) ==>
                  var n := if Value(digits) == 0 then 1 else Value(digits);
                  |t| == if |s| <= n then 0 else |s| - n)
  {
    FeedU(m, 0x3c, digits);
    assert ([0x3c] + digits)[1..] == digits;
    ReadsOrDefault(digits, 1);
  }

  /** The bit after a change: 1 sets the flags to those given, 2 adds them, 3 takes them away. */
  ghost predicate BitChanged(was: bool, given: bool, now: bool, how: nat) {
    now <==> if how == 1 then given else if how == 2 then was || given else was && !given
  }

  ghost predicate FlagsChanged(was: Flags, given: nat, now: Flags, how: nat) {
    && BitChanged(was & 1 != 0, given % 2 == 1, now & 1 != 0, how)
    && BitChanged(was & 2 != 0, given / 2 % 2 == 1, now & 2 != 0, how)
    && BitChanged(was & 8 != 0, given / 8 % 2 == 1, now & 8 != 0, how)
    && now & 0xF4 == (if how == 1 then 0 else was & 0xF4)
  }

  lemma ModifiedChanges(was: Flags, given: nat, how: nat)
    requires 1 <= how <= 3
    ensures FlagsChanged(was, given, Modified(was, SupportedFlags(given), how), how)
  {
    SupportedAreFlags(given);
    ModifiedBits(was, SupportedFlags(given), how);
  }

  lemma ModifiedBits(was: Flags, flags: Flags, how: nat)
    requires 1 <= how <= 3 && flags & 0xF4 == 0
    ensures var now := Modified(was, flags, how);
            && BitChanged(was & 1 != 0, flags & 1 != 0, now & 1 != 0, how)
            && BitChanged(was & 2 != 0, flags & 2 != 0, now & 2 != 0, how)
            && BitChanged(was & 8 != 0, flags & 8 != 0, now & 8 != 0, how)
            && now & 0xF4 == (if how == 1 then 0 else was & 0xF4)
  {
  }

  /** The top entry changed in the given way, the others untouched; an empty stack gains an entry. */
  ghost predicate TopChanged(s: seq<Flags>, t: seq<Flags>, given: nat, how: nat) {
    && t != [] && t[..|t| - 1] == (if s == [] then [] else s[..|s| - 1])
    && FlagsChanged(if s == [] then 0 else s[|s| - 1], given, t[|t| - 1], how)
  }

  lemma ModifyChangesTop(s: seq<Flags>, given: nat, how: nat)
    requires 1 <= how <= 3
    ensures TopChanged(s, KittyModifyTop(s, SupportedFlags(given), how), given, how)
  {
    ModifiedChanges(if s == [] then 0 else s[|s| - 1], given, how);
  }

  /** ESC [ = flags ; how u changes the top entry; the kind of change is 1 if left out, and others have no effect. */
  lemma ChangeTouchesTop(m: Machine, digits: Bytes, kind: Bytes)
    requires m.parser == CLEAN && |digits| + 1 + |kind| < CSI_MAX
    requires forall i :: 0 <= i < |digits| ==> IsParam(digits[i]) && digits[i] != SEMI
    requires forall i :: 0 <= i < |kind| ==> IsParam(kind[i]) && kind[i] != SEMI
    ensures var after := Feed(m, [0x1b, 0x5b, 0x3d] + (digits + [0x3b] + kind) + [0x75]).0;
            var (s, t) := (m.core.modes.kitty, after.core.modes.kitty);
            var how := if kind == [] then 1 else if AllDigits(kind) then Value(kind) else 0;
            && after == m.(core := m.core.(modes := m.core.modes.(kitty := t)))
            && (if IsNumber(digits) && 1 <= how <= 3 then TopChanged(s, t, Value(digits), how) else t == s)
  {
    FeedU(m, 0x3d, digits + [0x3b] + kind);
    ChangeHandled(m.core, digits, kind);
    var how := if kind == [] then 1 else if AllDigits(kind) then Value(kind) else 0;
    if 1 <= how <= 3 && IsNumber(digits) {
      ModifyChangesTop(m.core.modes.kitty, Value(digits), how);
    }
  }

  lemma ChangeHandled(core: Core, digits: Bytes, kind: Bytes)
    requires SEMI !in digits && SEMI !in kind
    ensures var how := if kind == [] then 1 else if AllDigits(kind) then Value(kind) else 0;
            var (s, m) := (core.modes.kitty, core.modes);
            HandleCsiU(core, [0x3d] + (digits + [0x3b] + kind))
            == if IsNumber(digits) && 1 <= how <= 3
               then core.(modes := m.(kitty := KittyModifyTop(s, SupportedFlags(Value(digits)), how))) else core
  {
    var rest := digits + [SEMI] + kind;
    assert ([0x3d] + rest)[1..] == rest;
    TwoParts(digits, kind);
    ReadsOrDefault(digits, 0);
    ReadsOrDefault(kind, 1);
  }

  lemma TwoParts(digits: Bytes, kind: Bytes)
    requires SEMI !in digits && SEMI !in kind
    ensures SplitOn(digits + [SEMI] + kind, SEMI) == [digits, kind]
  {
    SplitFirst(digits, SEMI, kind);
    SplitNone(kind, SEMI);
  }

  /** Without a kind the flags are set. */
  lemma SetSetsTop(m: Machine, digits: Bytes)
    requires m.parser == CLEAN && |digits| < CSI_MAX
    requires forall i :: 0 <= i < |digits| ==> IsParam(digits[i]) && digits[i] != SEMI
    ensures var after := Feed(m, [0x1b, 0x5b, 0x3d] + digits + [0x75]).0;
            var (s, t) := (m.core.modes.kitty, after.core.modes.kitty);
            && after == m.(core := m.core.(modes := m.core.modes.(kitty := t)))
            && (if IsNumber(digits) then TopChanged(s, t, Value(digits), 1) else t == s)
  {
    FeedU(m, 0x3d, digits);
    SetHandled(m.core, digits);
    if IsNumber(digits) {
      ModifyChangesTop(m.core.modes.kitty, Value(digits), 1);
    }
  }

  lemma SetHandled(core: Core, digits: Bytes)
    requires SEMI !in digits
    ensures HandleCsiU(core, [0x3d] + digits)
         == if IsNumber(digits)
            then core.(modes := core.modes.(kitty := KittyModifyTop(core.modes.kitty, SupportedFlags(Value(digits)), 1)))
            else core
  {
    assert ([0x3d] + digits)[1..] == digits;
    SplitNone(digits, SEMI);
    ReadsOrDefault(digits, 0);
  }

  /** With a third parameter nothing happens. */
  lemma ThirdParameterSpoils(m: Machine, digits: Bytes, kind: Bytes, more: Bytes)
    requires m.parser == CLEAN && |digits + [0x3b] + (kind + [0x3b] + more)| < CSI_MAX
    requires forall i :: 0 <= i < |digits| ==> IsParam(digits[i]) && digits[i] != SEMI
    requires forall i :: 0 <= i < |kind| ==> IsParam(kind[i]) && kind[i] != SEMI
    requires forall i :: 0 <= i < |more| ==> IsParam(more[i])
    ensures Feed(m, [0x1b, 0x5b, 0x3d] + (digits + [0x3b] + (kind + [0x3b] + more)) + [0x75]).0 == m
  {
    var rest := digits + [SEMI] + (kind + [SEMI] + more);
    FeedU(m, 0x3d, rest);
    assert ([0x3d] + rest)[1..] == rest;
    SplitFirst(digits, SEMI, kind + [SEMI] + more);
    SplitFirst(kind, SEMI, more);
  }

  /** ESC [ ? u is answered with the five low bits of the top entry, or with none. */
  lemma QueryIsAnswered(m: Machine)
    requires m.parser == CLEAN
    ensures var (s, after) := (m.core.modes.kitty, Feed(m, [0x1b, 0x5b, 0x3f, 0x75]).0);
            after == m.(core := m.core.(answers := m.core.answers + [if s == [] then 0 else s[|s| - 1] & 0x1F]))
  {
    assert [0x1b, 0x5b, 0x3f] + [] + [0x75] == [0x1b, 0x5b, 0x3f, 0x75];
    FeedU(m, 0x3f, []);
    assert ([0x3f as byte] + [])[1..] == [];
  }

  /** Any other sequence that ends in u passes and has no effect, a query with a parameter included. */
  lemma OthersHaveNoEffect(m: Machine, body: Bytes)
    requires m.parser == CLEAN && |body| <= CSI_MAX && forall i :: 0 <= i < |body| ==> IsParam(body[i])
    requires body == [] || body[0] !in {0x3c, 0x3d, 0x3e, 0x3f} || (body[0] == 0x3f && |body| > 1)
    ensures Feed(m, [0x1b, 0x5b] + body + [0x75]) == (m, [0x1b, 0x5b] + body + [0x75])
  {
    ModeEffects.FeedSpelled(m, [0x1b, 0x5b] + body + [0x75], body, 0x75);
  }
}
