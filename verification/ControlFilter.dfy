/** The control-sequence filter between a pane's program and the terminal emulator: its modes, its parser and its answers. */
module ControlFilter {
  import opened Prelude

  type byte = n: int | 0 <= n < 0x100

  type Bytes = seq<byte>

  const BEL: byte := 0x07
  const CAN: byte := 0x18
  const SUB: byte := 0x1a
  const ESC: byte := 0x1b
  const SEMI: byte := 0x3b
  const CSI_MAX := 256
  const OSC_PAYLOAD_MAX := 1024 * 1024
  const OSC_FORWARD_MAX := 8192
  const OSC_QUEUE_MAX := 8
  const OSC_QUEUE_BYTES_MAX := 2 * 1024 * 1024

  // ----- terminal modes -----

  type Flags = bv8

  const KITTY_SUPPORTED: Flags := 0x0B
  const KITTY_ALL: Flags := 0x1F
  const KITTY_MAX_DEPTH := 32

  datatype MouseProtocol = Off | Press | X10 | Btn | Any

  datatype MouseEncoding = Legacy | Utf8 | Urxvt | Sgr

  datatype Modes = Modes(
    bracketedPaste: bool,
    focusReporting: bool,
    protocol: MouseProtocol,
    encoding: MouseEncoding,
    kitty: seq<Flags>,
    inactiveKitty: seq<Flags>,
    alternate: bool,
    syncOpen: bool)

  const INITIAL_MODES := Modes(false, false, Off, Legacy, [], [], false, false)

  function KittyActive(stack: seq<Flags>): Flags {
    if stack == [] then 0 else stack[|stack| - 1]
  }

  function KittyPush(stack: seq<Flags>, flags: Flags): seq<Flags> {
    (if |stack| >= KITTY_MAX_DEPTH then stack[1..] else stack) + [flags]
  }

  function KittyPop(stack: seq<Flags>, n: nat): seq<Flags> {
    stack[..SatSub(|stack|, Max(n, 1))]
  }

  /** What a change of the given kind makes of some flags: set, add or take away. */
  function Modified(top: Flags, flags: Flags, mode: nat): Flags {
    if mode == 1 then flags else if mode == 2 then top | flags else top & !flags
  }

  function KittyModifyTop(stack: seq<Flags>, flags: Flags, mode: nat): seq<Flags> {
    if !(1 <= mode <= 3) then stack
    else
      var s := if stack == [] then [0] else stack;
      s[|s| - 1 := Modified(s[|s| - 1], flags, mode)]
  }

  function SetAlternate(m: Modes, on: bool): Modes {
    if m.alternate == on then m else m.(kitty := m.inactiveKitty, inactiveKitty := m.kitty, alternate := on)
  }

  function ToggleProtocol(m: Modes, p: MouseProtocol, on: bool): Modes {
    if on then m.(protocol := p) else if m.protocol == p then m.(protocol := Off) else m
  }

  function ToggleEncoding(m: Modes, e: MouseEncoding, on: bool): Modes {
    if on then m.(encoding := e) else if m.encoding == e then m.(encoding := Legacy) else m
  }

  function ApplyDecset(m: Modes, num: nat, on: bool): Modes {
    if num == 47 || num == 1047 || num == 1049 then SetAlternate(m, on)
    else if num == 2026 then m.(syncOpen := on)
    else if num == 9 then ToggleProtocol(m, Press, on)
    else if num == 2004 then m.(bracketedPaste := on)
    else if num == 1004 then m.(focusReporting := on)
    else if num == 1000 then ToggleProtocol(m, X10, on)
    else if num == 1002 then ToggleProtocol(m, Btn, on)
    else if num == 1003 then ToggleProtocol(m, Any, on)
    else if num == 1005 then ToggleEncoding(m, Utf8, on)
    else if num == 1006 then ToggleEncoding(m, Sgr, on)
    else if num == 1015 then ToggleEncoding(m, Urxvt, on)
    else m
  }

  // ----- parameters -----

  predicate AllDigits(s: Bytes) { forall i :: 0 <= i < |s| ==> IsDigit(s[i]) }

  function ParseU32(s: Bytes): Option<nat> {
    if s == [] then None else Decimal(s, 0)
  }

  function ParseDefault(s: Bytes, default: nat): Option<nat> {
    if s == [] then Some(default) else ParseU32(s)
  }

  // ----- control sequences -----

  /** What a control sequence can change, besides the clipboard queues: the modes, and the answers sent to the child. */
  datatype Core = Core(modes: Modes, answers: seq<Flags>)

  function SupportedFlags(n: nat): Flags { (n % 256) as bv8 & KITTY_SUPPORTED }

  function HandleCsiU(core: Core, body: Bytes): Core {
    if body == [] then core
    else
      var rest := body[1..];
      var m := core.modes;
      if body[0] == 0x3e then  // >
        var flags := ParseDefault(rest, 0);
        if flags.None? then core else core.(modes := m.(kitty := KittyPush(m.kitty, SupportedFlags(flags.value))))
      else if body[0] == 0x3c then  // <
        var n := ParseDefault(rest, 1);
        if n.None? then core else core.(modes := m.(kitty := KittyPop(m.kitty, n.value)))
      else if body[0] == 0x3d then  // =
        var parts := SplitOn(rest, SEMI);
        var flags := ParseDefault(parts[0], 0);
        var mode := ParseDefault(if |parts| > 1 then parts[1] else [], 1);
        if flags.None? || mode.None? || mode.value > 255 || |parts| > 2 then core
        else core.(modes := m.(kitty := KittyModifyTop(m.kitty, SupportedFlags(flags.value), mode.value)))
      else if body[0] == 0x3f && rest == [] then  // ?
        core.(answers := core.answers + [KittyActive(m.kitty) & KITTY_ALL])
      else core
  }

  const CLEAR_SCREEN: Bytes := [ESC, 0x5b, 0x32, 0x4a]  // CSI 2 J
  const FORTY_SEVEN: Bytes := [0x34, 0x37]

  function PrivateMode(param: Bytes, final: byte): Bytes {
    [ESC, 0x5b, 0x3f] + param + [final]
  }

  /** One private mode: the new modes and what is passed on. 1047 becomes 47, clearing the screen on the way out. */
  function DecMode(m: Modes, param: Bytes, final: byte): (Modes, Bytes) {
    var mode := ParseU32(param);
    var on := final == 0x68;
    ((if mode.Some? then ApplyDecset(m, mode.value, on) else m),
     (if mode == Some(1047) && final == 0x6c && m.alternate then CLEAR_SCREEN else [])
     + PrivateMode(if mode == Some(1047) then FORTY_SEVEN else param, final))
  }

  function DecModes(m: Modes, params: seq<Bytes>, final: byte): (Modes, Bytes)
    decreases |params|
  {
    if params == [] then (m, [])
    else
      var (m1, o1) := DecMode(m, params[0], final);
      var (m2, o2) := DecModes(m1, params[1..], final);
      (m2, o1 + o2)
  }

  predicate IsDecModes(body: Bytes, final: byte) {
    && body != [] && body[0] == 0x3f && (final == 0x68 || final == 0x6c)
    && forall i :: 1 <= i < |body| ==> IsDigit(body[i]) || body[i] == SEMI
  }

  function FinishDecModes(core: Core, params: seq<Bytes>, final: byte): (Core, Bytes) {
    var (m, o) := DecModes(core.modes, params, final);
    (core.(modes := m), o)
  }

  /** A complete control sequence: its effect and what is passed on in its place. */
  function FinishCsi(core: Core, body: Bytes, final: byte): (Core, Bytes) {
    var c := if final == 0x75 then HandleCsiU(core, body) else core;
    if IsDecModes(body, final) then FinishDecModes(c, SplitOn(body[1..], SEMI), final)
    else (c, [ESC, 0x5b] + body + [final])
  }

  // ----- operating system commands -----

  datatype SetPolicy = SetAllow | SetConfirm | SetDeny

  datatype GetPolicy = GetAllow | GetDeny

  datatype Decision = Pending | Allowed | Denied

  /** The clipboard policy, the user's decision, and the two queues it feeds. */
  datatype Clipboard = Clipboard(
    onSet: SetPolicy, onGet: GetPolicy, maxBytes: nat, decision: Decision,
    outgoing: seq<Bytes>, confirm: seq<Bytes>)

  function TotalBytes(queue: seq<Bytes>): nat {
    if queue == [] then 0 else TotalBytes(queue[..|queue| - 1]) + |queue[|queue| - 1]|
  }

  function Enqueue(queue: seq<Bytes>, envelope: Bytes): seq<Bytes> {
    if |queue| < OSC_QUEUE_MAX && |envelope| <= SatSub(OSC_QUEUE_BYTES_MAX, TotalBytes(queue)) then queue + [envelope]
    else queue
  }

  function Envelope(payload: Bytes): Bytes { [ESC, 0x5d] + payload + [BEL] }

  predicate IsSelection(b: byte) {
    b == 0x63 || b == 0x70 || b == 0x71 || b == 0x73 || 0x30 <= b <= 0x37
  }

  predicate IsBase64(b: byte) {
    IsDigit(b) || 0x41 <= b <= 0x5a || 0x61 <= b <= 0x7a || b == 0x2b || b == 0x2f || b == 0x3d
  }

  function EffectiveSet(clip: Clipboard): SetPolicy {
    if clip.onSet == SetDeny || clip.decision == Denied then SetDeny
    else if clip.decision == Allowed then SetAllow
    else clip.onSet
  }

  /** Index of the first semicolon, or the length. */
  function FirstSemi(s: Bytes): (i: nat)
    ensures i <= |s|
  {
    if s == [] || s[0] == SEMI then 0 else 1 + FirstSemi(s[1..])
  }

  /** OSC 52 ; selection ; data */
  function HandleOsc52(clip: Clipboard, payload: Bytes): Clipboard
    requires |payload| >= 3
  {
    var rest := payload[3..];
    var i := FirstSemi(rest);
    if i == |rest| || exists k :: 0 <= k < i && !IsSelection(rest[k]) then clip
    else
      var data := rest[i + 1..];
      if data == [0x3f] then
        if clip.onGet == GetAllow then clip.(outgoing := Enqueue(clip.outgoing, Envelope(payload))) else clip
      else if |data| > Min(clip.maxBytes, OSC_PAYLOAD_MAX) || exists k :: 0 <= k < |data| && !IsBase64(data[k]) then clip
      else
        match EffectiveSet(clip)
        case SetAllow => clip.(outgoing := Enqueue(clip.outgoing, Envelope(payload)))
        case SetDeny => clip
        case SetConfirm => clip.(confirm := Enqueue(clip.confirm, Envelope(payload)))
  }

  predicate IsTitle(payload: Bytes) {
    |payload| >= 2 && 0x30 <= payload[0] <= 0x32 && payload[1] == SEMI
  }

  /** A complete OSC: clipboard requests are queued, titles of at most 8192 bytes are passed on, the rest is dropped. */
  function FinishOsc(clip: Clipboard, payload: Bytes): (Clipboard, Bytes) {
    ((if |payload| >= 3 && payload[..3] == [0x35, 0x32, SEMI] then HandleOsc52(clip, payload) else clip),
     if |payload| <= OSC_FORWARD_MAX && IsTitle(payload) then Envelope(payload) else [])
  }

  // ----- the byte machine -----

  datatype Mode = Ground | Escape | EscapeIntermediate | Csi | Osc | Str | StrEscape

  datatype Parser = Parser(mode: Mode, buffer: Bytes, overflow: bool)

  const CLEAN := Parser(Ground, [], false)

  datatype Machine = Machine(parser: Parser, core: Core, clip: Clipboard)

  function Goto(m: Machine, mode: Mode): Machine {
    m.(parser := m.parser.(mode := mode))
  }

  function StepEscape(m: Machine, b: byte): (Machine, Bytes) {
    var e := m.(parser := Parser(Escape, [], false));
    if b == 0x5b then (Goto(e, Csi), [])
    else if b == 0x5d then (Goto(e, Osc), [])
    else if b == 0x50 || b == 0x58 || b == 0x5e || b == 0x5f then (Goto(e, Str), [])
    else if b == ESC then (e, [])
    else if 0x20 <= b <= 0x2f then (Goto(e, EscapeIntermediate), [ESC, b])
    else if b <= 0x1f then (e, [b])
    else if 0x30 <= b <= 0x7e then
      (Goto(if b == 0x63 then e.(core := e.core.(modes := INITIAL_MODES)) else e, Ground), [ESC, b])
    else (e, [])
  }

  function StepCsi(m: Machine, b: byte): (Machine, Bytes) {
    var p := m.parser;
    if b == ESC then (m.(parser := Parser(Escape, [], p.overflow)), [])
    else if 0x40 <= b <= 0x7e then
      if p.overflow then (m.(parser := CLEAN), [])
      else
        var (core, out) := FinishCsi(m.core, p.buffer, b);
        (m.(parser := CLEAN, core := core), out)
    else if b <= 0x1f then (m, [b])
    else if b == 0x7f then (m, [])
    else if 0x20 <= b <= 0x3f && !p.overflow && |p.buffer| < CSI_MAX then
      (m.(parser := p.(buffer := p.buffer + [b])), [])
    else (m.(parser := p.(overflow := true)), [])
  }

  function StepOsc(m: Machine, b: byte): (Machine, Bytes) {
    var p := m.parser;
    if b == BEL || b == ESC then
      var clean := Parser(if b == ESC then Escape else Ground, [], false);
      if p.overflow then (m.(parser := clean), [])
      else
        var (clip, out) := FinishOsc(m.clip, p.buffer);
        (m.(parser := clean, clip := clip), out)
    else if b <= 0x1f then (m, [])
    else if !p.overflow && |p.buffer| < OSC_PAYLOAD_MAX then (m.(parser := p.(buffer := p.buffer + [b])), [])
    else (m.(parser := p.(buffer := [], overflow := true)), [])
  }

  /** The effect of one input byte, and the bytes passed on to the emulator. */
  function Step(m: Machine, b: byte): (Machine, Bytes) {
    if (b == CAN || b == SUB) && m.parser.mode != Ground then (m.(parser := CLEAN), [b])
    else
      match m.parser.mode
      case Ground => if b == ESC then (Goto(m, Escape), []) else (m, [b])
      case Escape => StepEscape(m, b)
      case EscapeIntermediate =>
        if b == ESC then (Goto(m, Escape), [CAN])
        else (if 0x30 <= b <= 0x7e then Goto(m, Ground) else m, [b])
      case Csi => StepCsi(m, b)
      case Osc => StepOsc(m, b)
      case Str => (if b == ESC then Goto(m, StrEscape) else if b == 0x9c then Goto(m, Ground) else m, [])
      case StrEscape => (Goto(m, if b == 0x5c then Ground else Str), [])
  }

  /** The effect of a stretch of input. */
  function Feed(m: Machine, bytes: Bytes): (Machine, Bytes)
    decreases |bytes|
  {
    if bytes == [] then (m, [])
    else
      var (m1, o1) := Step(m, bytes[0]);
      var (m2, o2) := Feed(m1, bytes[1..]);
      (m2, o1 + o2)
  }

  // ----- the machine as it is updated in place -----

  class Interceptor {
    var mode: Mode
    var buffer: Bytes
    var overflow: bool
    var core: Core
    var clip: Clipboard

    constructor (clip: Clipboard)
      ensures View() == Machine(CLEAN, Core(INITIAL_MODES, []), clip)
    {
      mode, buffer, overflow := Ground, [], false;
      core := Core(INITIAL_MODES, []);
      this.clip := clip;
    }

    function View(): Machine
      reads this
    {
      Machine(Parser(mode, buffer, overflow), core, clip)
    }

    method Reset(next: Mode)
      modifies this`mode, this`buffer, this`overflow
      ensures mode == next && buffer == [] && !overflow
    {
      mode := next;
      buffer := [];
      overflow := false;
    }

    method EndOsc(next: Mode) returns (out: Bytes)
      modifies this`mode, this`buffer, this`overflow, this`clip
      ensures mode == next && buffer == [] && !overflow
      ensures (clip, out) == if old(overflow) then (old(clip), []) else FinishOsc(old(clip), old(buffer))
    {
      out := [];
      if !overflow {
        var finished := FinishOsc(clip, buffer);
        clip := finished.0;
        out := finished.1;
      }
      Reset(next);
    }

    /** Rewrites a private mode sequence parameter by parameter; other sequences are left to the caller. */
    method InterceptDecModes(body: Bytes, final: byte) returns (handled: bool, out: Bytes)
      modifies this`core
      ensures handled == IsDecModes(body, final)
      ensures !handled ==> core == old(core)
      ensures handled ==> (core, out) == FinishDecModes(old(core), SplitOn(body[1..], SEMI), final)
    {
      out := [];
      handled := IsDecModes(body, final);
      if !handled {
        return;
      }
      var params := SplitOn(body[1..], SEMI);
      ghost var whole := FinishDecModes(core, params, final);
      assert params[0..] == params && [] + whole.1 == whole.1;
      for k := 0 to |params|
        invariant Prepend(out, FinishDecModes(core, params[k..], final)) == whole
      {
        ghost var before := out;
        DecModesStep(core, params[k..], final, out);
        assert params[k..][1..] == params[k + 1..];
        var mode := ParseU32(params[k]);
        if mode == Some(1047) && final == 0x6c && core.modes.alternate {
          out := out + CLEAR_SCREEN;
        }
        if mode.Some? {
          core := core.(modes := ApplyDecset(core.modes, mode.value, final == 0x68));
        }
        var mapped := PrivateMode(if mode == Some(1047) then FORTY_SEVEN else params[k], final);
        Assoc(before, CLEAR_SCREEN, mapped);
        Assoc(before, [], mapped);
        out := out + mapped;
      }
      assert out + [] == out;
    }

    method InterceptCsi(b: byte) returns (out: Bytes)
      requires mode == Csi && b != CAN && b != SUB
      modifies this
      ensures (View(), out) == Step(old(View()), b)
    {
      out := [];
      if b == ESC {
        buffer := [];
        mode := Escape;
      } else if 0x40 <= b <= 0x7e {
        if !overflow {
          if b == 0x75 {
            core := HandleCsiU(core, buffer);
          }
          var handled: bool;
          handled, out := InterceptDecModes(buffer, b);
          if !handled {
            out := [ESC, 0x5b] + buffer + [b];
          }
        }
        Reset(Ground);
      } else if b <= 0x1f {
        out := [b];
      } else if b == 0x7f {
      } else if b <= 0x3f && !overflow && |buffer| < CSI_MAX {
        buffer := buffer + [b];
      } else {
        overflow := true;
      }
    }

    method InterceptOsc(b: byte) returns (out: Bytes)
      requires mode == Osc && b != CAN && b != SUB
      modifies this
      ensures (View(), out) == Step(old(View()), b)
    {
      out := [];
      if b == BEL {
        out := EndOsc(Ground);
      } else if b == ESC {
        out := EndOsc(Escape);
      } else if b <= 0x1f {
      } else if !overflow && |buffer| < OSC_PAYLOAD_MAX {
        buffer := buffer + [b];
      } else {
        overflow := true;
        buffer := [];
      }
    }

    method InterceptEscape(b: byte) returns (out: Bytes)
      requires mode == Escape && b != CAN && b != SUB
      modifies this
      ensures (View(), out) == Step(old(View()), b)
    {
      out := [];
      buffer := [];
      overflow := false;
      if b == 0x5b {
        mode := Csi;
      } else if b == 0x5d {
        mode := Osc;
      } else if b == 0x50 || b == 0x58 || b == 0x5e || b == 0x5f {
        mode := Str;
      } else if b == ESC {
      } else if 0x20 <= b <= 0x2f {
        out := [ESC, b];
        mode := EscapeIntermediate;
      } else if b <= 0x1f {
        out := [b];
      } else if 0x30 <= b <= 0x7e {
        if b == 0x63 {
          core := core.(modes := INITIAL_MODES);
        }
        out := [ESC, b];
        mode := Ground;
      }
    }

    method InterceptByte(b: byte) returns (out: Bytes)
      modifies this
      ensures (View(), out) == Step(old(View()), b)
    {
      if (b == CAN || b == SUB) && mode != Ground {
        Reset(Ground);
        return [b];
      }
      out := [];
      match mode
      case Ground =>
        if b == ESC {
          mode := Escape;
        } else {
          out := [b];
        }
      case Escape => out := InterceptEscape(b);
      case EscapeIntermediate =>
        if b == ESC {
          out := [CAN];
          mode := Escape;
        } else {
          out := [b];
          if 0x30 <= b <= 0x7e {
            mode := Ground;
          }
        }
      case Csi => out := InterceptCsi(b);
      case Osc => out := InterceptOsc(b);
      case Str =>
        if b == ESC {
          mode := StrEscape;
        } else if b == 0x9c {
          mode := Ground;
        }
      case StrEscape =>
        mode := if b == 0x5c then Ground else Str;
    }

    /** Scans one chunk; whatever is incomplete is kept for the next. */
    method InterceptChunk(chunk: Bytes) returns (output: Bytes)
      modifies this
      ensures (View(), output) == Feed(old(View()), chunk)
    {
      output := [];
      for i := 0 to |chunk|
        invariant (View(), output) == Feed(old(View()), chunk[..i])
      {
        var out := InterceptByte(chunk[i]);
        output := output + out;
        FeedSnoc(old(View()), chunk[..i], chunk[i]);
        assert chunk[..i + 1] == chunk[..i] + [chunk[i]];
      }
      assert chunk[..|chunk|] == chunk;
    }
  }

  function Prepend(out: Bytes, rest: (Core, Bytes)): (Core, Bytes) { (rest.0, out + rest.1) }

  /** One parameter and then the others, after `out`. */
  lemma DecModesStep(core: Core, params: seq<Bytes>, final: byte, out: Bytes)
    requires params != []
    ensures var (m, o) := DecMode(core.modes, params[0], final);
            && Prepend(out, FinishDecModes(core, params, final))
               == Prepend(out + o, FinishDecModes(core.(modes := m), params[1..], final))
  {
    var (m, o) := DecMode(core.modes, params[0], final);
    var rest := DecModes(m, params[1..], final).1;
    Assoc(out, o, rest);
  }

  lemma FeedOne(m: Machine, b: byte)
    ensures Feed(m, [b]) == Step(m, b)
  {
    var (m1, o1) := Step(m, b);
    assert Feed(m1, [b][1..]) == (m1, []);
    assert o1 + [] == o1;
  }

  lemma FeedSnoc(m: Machine, s: Bytes, b: byte)
    ensures var (m1, o1) := Feed(m, s); var (m2, o2) := Step(m1, b); Feed(m, s + [b]) == (m2, o1 + o2)
  {
    FeedAppend(m, s, [b]);
    FeedOne(Feed(m, s).0, b);
  }

  /** Chunking does not matter: feeding two chunks is feeding their concatenation. */
  lemma {:induction false} FeedAppend(m: Machine, s: Bytes, t: Bytes)
    ensures var (m1, o1) := Feed(m, s); var (m2, o2) := Feed(m1, t); Feed(m, s + t) == (m2, o1 + o2)
    decreases |s|
  {
    if s == [] {
      assert s + t == t;
      assert [] + Feed(m, t).1 == Feed(m, t).1;
    } else {
      var (m1, o1) := Step(m, s[0]);
      assert (s + t)[1..] == s[1..] + t;
      FeedAppend(m1, s[1..], t);
      var (m2, o2) := Feed(m1, s[1..]);
      var o3 := Feed(m2, t).1;
      Assoc(o1, o2, o3);
    }
  }
}
