/** Pieces of filter output read back by a filter: each passes unchanged and has the effect that the original sequence had. */
module Replay {
  import opened Prelude
  import opened ControlFilter

  predicate IsParam(b: byte) { 0x20 <= b <= 0x3f }

  /** Tighter bounds, kept while the filter's own output is parsed: no string controls, no overflow, short titles. */
  ghost predicate Tame(p: Parser) {
    && p.mode != Str && p.mode != StrEscape && !p.overflow
    && (p.mode == Csi ==> |p.buffer| <= CSI_MAX)
    && (p.mode == Osc ==> |p.buffer| <= OSC_FORWARD_MAX)
  }

  /** Every parser state passed through on these bytes is tame. */
  ghost predicate StaysTame(m: Machine, bytes: Bytes)
    decreases |bytes|
  {
    Tame(m.parser) && (bytes != [] ==> StaysTame(Step(m, bytes[0]).0, bytes[1..]))
  }

  /** The machine passes the bytes unchanged, staying tame, and ends as `after`. */
  ghost predicate Replays(m: Machine, bytes: Bytes, after: Machine) {
    Feed(m, bytes) == (after, bytes) && StaysTame(m, bytes)
  }

  // ----- composing stretches -----

  lemma {:induction false} TameAppend(m: Machine, s: Bytes, t: Bytes)
    requires StaysTame(m, s) && StaysTame(Feed(m, s).0, t)
    ensures StaysTame(m, s + t)
    decreases |s|
  {
    if s == [] {
      assert s + t == t;
    } else {
      assert (s + t)[1..] == s[1..] + t;
      TameAppend(Step(m, s[0]).0, s[1..], t);
    }
  }

  lemma {:induction false} ReplaysAppend(m: Machine, s: Bytes, m1: Machine, t: Bytes, m2: Machine)
    requires Replays(m, s, m1) && Replays(m1, t, m2)
    ensures Replays(m, s + t, m2)
  {
    FeedAppend(m, s, t);
    TameAppend(m, s, t);
  }

  lemma ReplaysByte(m: Machine, b: byte, after: Machine)
    requires Step(m, b) == (after, [b]) && Tame(m.parser) && Tame(after.parser)
    ensures Replays(m, [b], after)
  {
    FeedOne(m, b);
    assert StaysTame(after, [b][1..]);
  }

  // ----- whole controls -----

  /** Parameter bytes only fill the buffer. */
  lemma {:induction false} FeedParams(m: Machine, buf: Bytes, body: Bytes)
    requires m.parser == Parser(Csi, buf, false) && |buf| + |body| <= CSI_MAX
    requires forall i :: 0 <= i < |body| ==> IsParam(body[i])
    ensures Feed(m, body) == (m.(parser := Parser(Csi, buf + body, false)), []) && StaysTame(m, body)
    decreases |body|
  {
    if body == [] {
      assert buf + body == buf;
    } else {
      var next := m.(parser := Parser(Csi, buf + [body[0]], false));
      assert Step(m, body[0]) == (next, []);
      FeedParams(next, buf + [body[0]], body[1..]);
      assert (buf + [body[0]]) + body[1..] == buf + body;
      assert Feed(m, body).1 == [] + Feed(next, body[1..]).1;
    }
  }

  lemma {:induction false} FeedPayload(m: Machine, buf: Bytes, body: Bytes)
    requires m.parser == Parser(Osc, buf, false) && |buf| + |body| <= OSC_FORWARD_MAX
    requires forall i :: 0 <= i < |body| ==> body[i] >= 0x20
    ensures Feed(m, body) == (m.(parser := Parser(Osc, buf + body, false)), []) && StaysTame(m, body)
    decreases |body|
  {
    if body == [] {
      assert buf + body == buf;
    } else {
      var next := m.(parser := Parser(Osc, buf + [body[0]], false));
      assert Step(m, body[0]) == (next, []);
      FeedPayload(next, buf + [body[0]], body[1..]);
      assert (buf + [body[0]]) + body[1..] == buf + body;
      assert Feed(m, body).1 == [] + Feed(next, body[1..]).1;
    }
  }

  /** The two bytes that open a control. */
  lemma FeedOpening(m: Machine, b: byte, next: Mode)
    requires m.parser == CLEAN && ((b == 0x5b && next == Csi) || (b == 0x5d && next == Osc))
    ensures Feed(m, [ESC, b]) == (m.(parser := Parser(next, [], false)), []) && StaysTame(m, [ESC, b])
  {
    var escaped := Goto(m, Escape);
    assert Step(m, ESC) == (escaped, []);
    FeedOne(escaped, b);
    assert [ESC, b][1..] == [b];
    assert StaysTame(Step(escaped, b).0, [b][1..]);
    assert StaysTame(escaped, [b]);
  }

  /** A control that opens in the ground state, fills its buffer and ends. */
  lemma {:induction false} FeedControl(m: Machine, start: Bytes, entered: Machine, body: Bytes, full: Machine, last: byte)
    requires Feed(m, start) == (entered, []) && StaysTame(m, start)
    requires Feed(entered, body) == (full, []) && StaysTame(entered, body)
    requires Tame(Step(full, last).0.parser) && Tame(full.parser)
    ensures Feed(m, start + body + [last]) == Step(full, last) && StaysTame(m, start + body + [last])
  {
    FeedAppend(m, start, body);
    TameAppend(m, start, body);
    FeedAppend(m, start + body, [last]);
    FeedOne(full, last);
    assert StaysTame(Step(full, last).0, [last][1..]);
    assert StaysTame(full, [last]);
    TameAppend(m, start + body, [last]);
    assert [] + Step(full, last).1 == Step(full, last).1;
  }

  /** A well-formed control sequence read from the ground state takes its effect and is replaced accordingly. */
  lemma {:induction false} CsiSequence(m: Machine, body: Bytes, final: byte)
    requires m.parser == CLEAN && |body| <= CSI_MAX && 0x40 <= final <= 0x7e
    requires forall i :: 0 <= i < |body| ==> IsParam(body[i])
    ensures Feed(m, [ESC, 0x5b] + body + [final])
         == (m.(core := FinishCsi(m.core, body, final).0), FinishCsi(m.core, body, final).1)
    ensures StaysTame(m, [ESC, 0x5b] + body + [final])
  {
    var entered := m.(parser := Parser(Csi, [], false));
    var full := m.(parser := Parser(Csi, body, false));
    FeedOpening(m, 0x5b, Csi);
    FeedParams(entered, [], body);
    assert [] + body == body;
    FeedControl(m, [ESC, 0x5b], entered, body, full, final);
  }

  lemma {:induction false} ReplaysTitle(m: Machine, payload: Bytes)
    requires m.parser == CLEAN && |payload| <= OSC_FORWARD_MAX && IsTitle(payload)
    requires forall i :: 0 <= i < |payload| ==> payload[i] >= 0x20
    ensures Replays(m, Envelope(payload), m)
  {
    var entered := m.(parser := Parser(Osc, [], false));
    var full := m.(parser := Parser(Osc, payload, false));
    FeedOpening(m, 0x5d, Osc);
    FeedPayload(entered, [], payload);
    assert [] + payload == payload;
    assert Step(full, BEL) == (m, Envelope(payload)) by {
      assert |payload| >= 3 ==> payload[..3][0] == payload[0];
    }
    FeedControl(m, [ESC, 0x5d], entered, payload, full, BEL);
  }

  // ----- private modes -----

  /** What one parameter of a private mode sequence looks like. */
  ghost predicate IsModeNumber(param: Bytes) { |param| < CSI_MAX && AllDigits(param) }

  ghost function WithModes(m: Machine, modes: Modes): Machine {
    m.(core := m.core.(modes := modes))
  }

  lemma {:induction false} SplitPieces(s: Bytes, k: nat)
    requires forall i :: 0 <= i < |s| ==> IsDigit(s[i]) || s[i] == SEMI
    requires k < |SplitOn(s, SEMI)|
    ensures |SplitOn(s, SEMI)[k]| <= |s| && AllDigits(SplitOn(s, SEMI)[k])
  {
    if s != [] {
      if s[0] == SEMI {
        if k > 0 {
          SplitPieces(s[1..], k - 1);
        }
      } else {
        SplitPieces(s[1..], k);
      }
    }
  }

  lemma ParseFortySeven()
    ensures ParseU32(FORTY_SEVEN) == Some(47)
  {
    assert FORTY_SEVEN[1..] == [0x37];
    assert Decimal([0x37], 4) == Some(47);
  }

  /** A private mode sequence with a single parameter. */
  lemma {:induction false} SingleMode(core: Core, param: Bytes, final: byte)
    requires AllDigits(param) && (final == 0x68 || final == 0x6c)
    ensures FinishCsi(core, [0x3f] + param, final)
         == (core.(modes := DecMode(core.modes, param, final).0), DecMode(core.modes, param, final).1)
  {
    var body := [0x3f] + param;
    assert body[1..] == param;
    SplitNone(param, SEMI);
    var (m, o) := DecMode(core.modes, param, final);
    assert DecModes(m, [param][1..], final) == (m, []);
    assert o + [] == o;
    assert IsDecModes(body, final);
  }

  /** A private mode sequence that the filter keeps. */
  lemma {:induction false} ReplaysKept(m: Machine, param: Bytes, final: byte)
    requires m.parser == CLEAN && IsModeNumber(param) && (final == 0x68 || final == 0x6c)
    requires ParseU32(param) != Some(1047)
    ensures Replays(m, PrivateMode(param, final), WithModes(m, DecMode(m.core.modes, param, final).0))
  {
    SingleMode(m.core, param, final);
    CsiSequence(m, [0x3f] + param, final);
    assert [ESC, 0x5b] + ([0x3f] + param) + [final] == PrivateMode(param, final);
    assert [] + PrivateMode(param, final) == PrivateMode(param, final);
  }

  lemma ReplaysClear(m: Machine)
    requires m.parser == CLEAN
    ensures Replays(m, CLEAR_SCREEN, m)
  {
    CsiSequence(m, [0x32], 0x4a);
    assert [ESC, 0x5b] + [0x32] + [0x4a] == CLEAR_SCREEN;
  }

  /** The replacement for one private mode has the same effect, and is its own replacement. */
  lemma {:induction false} ReplaysDecMode(m: Machine, param: Bytes, final: byte)
    requires m.parser == CLEAN && IsModeNumber(param) && (final == 0x68 || final == 0x6c)
    ensures Replays(m, DecMode(m.core.modes, param, final).1, WithModes(m, DecMode(m.core.modes, param, final).0))
  {
    if ParseU32(param) == Some(1047) {
      var after := WithModes(m, DecMode(m.core.modes, param, final).0);
      ParseFortySeven();
      ReplaysKept(m, FORTY_SEVEN, final);
      if final == 0x6c && m.core.modes.alternate {
        ReplaysClear(m);
        ReplaysAppend(m, CLEAR_SCREEN, m, PrivateMode(FORTY_SEVEN, final), after);
      } else {
        assert [] + PrivateMode(FORTY_SEVEN, final) == PrivateMode(FORTY_SEVEN, final);
      }
    } else {
      ReplaysKept(m, param, final);
      assert [] + PrivateMode(param, final) == PrivateMode(param, final);
    }
  }

  /** The replacement for a list of private modes. */
  lemma {:induction false} ReplaysDecModes(m: Machine, params: seq<Bytes>, final: byte)
    requires m.parser == CLEAN && (final == 0x68 || final == 0x6c)
    requires forall k :: 0 <= k < |params| ==> IsModeNumber(params[k])
    ensures Replays(m, DecModes(m.core.modes, params, final).1, WithModes(m, DecModes(m.core.modes, params, final).0))
    decreases |params|
  {
    if params != [] {
      var (m1, o1) := DecMode(m.core.modes, params[0], final);
      var next := WithModes(m, m1);
      var (m2, o2) := DecModes(m1, params[1..], final);
      ReplaysDecMode(m, params[0], final);
      ReplaysDecModes(next, params[1..], final);
      ReplaysAppend(m, o1, next, o2, WithModes(next, m2));
    }
  }

  /** Whatever a control sequence is replaced by has the same effect, and is its own replacement. */
  lemma {:induction false} ReplaysFinishCsi(m: Machine, body: Bytes, final: byte)
    requires m.parser == CLEAN && |body| <= CSI_MAX && 0x40 <= final <= 0x7e
    requires forall i :: 0 <= i < |body| ==> IsParam(body[i])
    ensures var (core, out) := FinishCsi(m.core, body, final); Replays(m, out, m.(core := core))
  {
    if IsDecModes(body, final) {
      var params := SplitOn(body[1..], SEMI);
      forall k | 0 <= k < |params|
        ensures IsModeNumber(params[k])
      {
        SplitPieces(body[1..], k);
      }
      ReplaysDecModes(m, params, final);
    } else {
      CsiSequence(m, body, final);
    }
  }
}
