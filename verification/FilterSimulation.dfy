/** Filtering once is filtering for good. */
module FilterSimulation {
  import opened ControlFilter
  import opened Replay

  /** The bounds every reachable parser keeps: 256 bytes of control sequence, one MiB of OSC payload. */
  ghost predicate Bounded(p: Parser) {
    && (p.mode == Csi ==> |p.buffer| <= CSI_MAX && forall i :: 0 <= i < |p.buffer| ==> IsParam(p.buffer[i]))
    && (p.mode == Osc ==> |p.buffer| <= OSC_PAYLOAD_MAX && forall i :: 0 <= i < |p.buffer| ==> p.buffer[i] >= 0x20)
    && (p.mode != Csi && p.mode != Osc ==> p.buffer == [])
  }

  /** The second machine's state mirrors the first's: same modes and answers, and no half-read control of its own. */
  ghost predicate Mirrors(a: Machine, b: Machine) {
    && b.core == a.core
    && b.parser == Parser(if a.parser.mode == EscapeIntermediate then EscapeIntermediate else Ground, [], false)
  }

  lemma BoundedStep(m: Machine, b: byte)
    requires Bounded(m.parser)
    ensures Bounded(Step(m, b).0.parser)
  {
  }

  /** One raw byte to the first machine, its replacement to the second: they still mirror each other. */
  lemma {:induction false} SimulateStep(a: Machine, b: Machine, raw: byte) returns (after: Machine)
    requires Bounded(a.parser) && Mirrors(a, b)
    ensures Replays(b, Step(a, raw).1, after) && Mirrors(Step(a, raw).0, after)
  {
    var (next, out) := Step(a, raw);
    var p := a.parser;
    if (raw == CAN || raw == SUB) && p.mode != Ground {
      after := b.(parser := CLEAN);
      ReplaysByte(b, raw, after);
    } else {
      match p.mode
      case Ground | EscapeIntermediate =>
        if p.mode == Ground && raw == ESC {
          after := b;
        } else {
          var passed := if raw == ESC then CAN else raw;
          after := Step(b, passed).0;
          ReplaysByte(b, passed, after);
        }
      case Escape => after := SimulateEscape(a, b, raw);
      case Csi =>
        if raw <= 0x1f && raw != ESC {
          after := b;
          ReplaysByte(b, raw, b);
        } else if 0x40 <= raw <= 0x7e && !p.overflow {
          ReplaysFinishCsi(b, p.buffer, raw);
          after := b.(core := next.core);
        } else {
          after := b;
        }
      case Osc =>
        after := b;
        if out != [] {
          ReplaysTitle(b, p.buffer);
        }
      case Str => after := b;
      case StrEscape => after := b;
    }
  }

  lemma SimulateEscape(a: Machine, b: Machine, raw: byte) returns (after: Machine)
    requires a.parser.mode == Escape && Mirrors(a, b) && raw != CAN && raw != SUB
    ensures Replays(b, Step(a, raw).1, after) && Mirrors(Step(a, raw).0, after)
  {
    var out := Step(a, raw).1;
    if out == [raw] {
      after := b;
      ReplaysByte(b, raw, b);
    } else if out == [] {
      after := b;
    } else {
      var escaped := Goto(b, Escape);
      after := Step(escaped, raw).0;
      assert out == [ESC, raw] && out[1..] == [raw];
      assert Step(b, ESC) == (escaped, []) && Step(escaped, raw) == (after, out);
      FeedOne(escaped, raw);
      assert [] + out == out;
      assert StaysTame(after, [raw][1..]);
      assert StaysTame(escaped, [raw]);
    }
  }

  lemma {:induction false} Simulate(a: Machine, b: Machine, input: Bytes) returns (after: Machine)
    requires Bounded(a.parser) && Mirrors(a, b)
    ensures Replays(b, Feed(a, input).1, after) && Mirrors(Feed(a, input).0, after)
    ensures Bounded(Feed(a, input).0.parser)
    decreases |input|
  {
    if input == [] {
      after := b;
    } else {
      var (a1, o1) := Step(a, input[0]);
      var b1 := SimulateStep(a, b, input[0]);
      BoundedStep(a, input[0]);
      after := Simulate(a1, b1, input[1..]);
      ReplaysAppend(b, o1, b1, Feed(a1, input[1..]).1, after);
    }
  }

  /**
   * For every byte stream: the output is a fixed point of the filter, a second filter reading it reaches the same
   * modes and gives the same answers, and its own parser is between controls, or in the middle of an escape with
   * intermediates exactly when the first is. While it reads, it meets no string control and no overflow, and no OSC
   * payload longer than 8192 bytes. The first filter's buffers keep their bounds.
   */
  lemma {:induction false} FilterSimulation(m: Machine, input: Bytes)
    requires m.parser == CLEAN
    ensures var (m1, out) := Feed(m, input); var (m2, again) := Feed(m, out);
            && again == out
            && m2.core == m1.core
            && m2.parser == Parser(if m1.parser.mode == EscapeIntermediate then EscapeIntermediate else Ground, [], false)
            && StaysTame(m, out)
            && Bounded(m1.parser)
  {
    var _ := Simulate(m, m, input);
  }

  /** The bounds hold however the input is cut into chunks, since any cut of it is itself an input. */
  lemma {:induction false} ChunksAgree(m: Machine, first: Bytes, rest: Bytes)
    requires m.parser == CLEAN
    ensures Bounded(Feed(m, first).0.parser)
    ensures Feed(m, first + rest).1 == Feed(m, first).1 + Feed(Feed(m, first).0, rest).1
    ensures Feed(m, first + rest).0 == Feed(Feed(m, first).0, rest).0
  {
    FilterSimulation(m, first);
    FeedAppend(m, first, rest);
  }
}
