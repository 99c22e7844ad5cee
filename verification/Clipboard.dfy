/** The clipboard queues: their bounds and what the policy lets through. */
module Clipboard {
  import opened ControlFilter
  import opened Replay

  ghost predicate QueueBounded(queue: seq<Bytes>) {
    |queue| <= OSC_QUEUE_MAX && TotalBytes(queue) <= OSC_QUEUE_BYTES_MAX
  }

  lemma EnqueueKeepsBound(queue: seq<Bytes>, envelope: Bytes)
    requires QueueBounded(queue)
    ensures QueueBounded(Enqueue(queue, envelope))
  {
    var longer := queue + [envelope];
    assert longer[..|longer| - 1] == queue;
    assert TotalBytes(longer) == TotalBytes(queue) + |envelope|;
  }

  lemma StepKeepsBounds(m: Machine, b: byte)
    requires QueueBounded(m.clip.outgoing) && QueueBounded(m.clip.confirm)
    ensures var clip := Step(m, b).0.clip; QueueBounded(clip.outgoing) && QueueBounded(clip.confirm)
  {
    var clip := Step(m, b).0.clip;
    var envelope := Envelope(m.parser.buffer);
    assert clip.outgoing == m.clip.outgoing || clip.outgoing == Enqueue(m.clip.outgoing, envelope);
    assert clip.confirm == m.clip.confirm || clip.confirm == Enqueue(m.clip.confirm, envelope);
    EnqueueKeepsBound(m.clip.outgoing, envelope);
    EnqueueKeepsBound(m.clip.confirm, envelope);
  }

  /** Neither clipboard queue ever holds more than 8 envelopes or 2 MiB. */
  lemma {:induction false} QueuesStayBounded(m: Machine, input: Bytes)
    requires QueueBounded(m.clip.outgoing) && QueueBounded(m.clip.confirm)
    ensures var clip := Feed(m, input).0.clip; QueueBounded(clip.outgoing) && QueueBounded(clip.confirm)
    decreases |input|
  {
    if input != [] {
      StepKeepsBounds(m, input[0]);
      QueuesStayBounded(Step(m, input[0]).0, input[1..]);
    }
  }

  /** What a policy lets through, over any run: denying both ways freezes both queues, asking first freezes the outgoing one. */
  lemma {:induction false} PolicyHolds(m: Machine, input: Bytes)
    requires m.clip.onGet == GetDeny && EffectiveSet(m.clip) != SetAllow
    ensures var clip := Feed(m, input).0.clip;
            && clip.outgoing == m.clip.outgoing
            && (EffectiveSet(m.clip) == SetDeny ==> clip == m.clip)
            && clip.onGet == GetDeny && EffectiveSet(clip) == EffectiveSet(m.clip)
    decreases |input|
  {
    if input != [] {
      PolicyHolds(Step(m, input[0]).0, input[1..]);
    }
  }

  // ----- operating system commands, read off their bytes -----

  lemma {:induction false} PayloadFillsBuffer(m: Machine, buf: Bytes, body: Bytes)
    requires m.parser == Parser(Osc, buf, false) && |buf| + |body| <= OSC_PAYLOAD_MAX
    requires forall i :: 0 <= i < |body| ==> body[i] >= 0x20
    ensures Feed(m, body) == (m.(parser := Parser(Osc, buf + body, false)), [])
    decreases |body|
  {
    if body == [] {
      assert buf + body == buf;
    } else {
      var next := m.(parser := Parser(Osc, buf + [body[0]], false));
      assert Step(m, body[0]) == (next, []);
      PayloadFillsBuffer(next, buf + [body[0]], body[1..]);
      assert (buf + [body[0]]) + body[1..] == buf + body;
      assert Feed(m, body).1 == [] + Feed(next, body[1..]).1;
    }
  }

  /** The parser after the byte that ended a command. */
  function Ended(last: byte): Parser { Parser(if last == 0x1b then Escape else Ground, [], false) }

  /** ESC ] payload and BEL, or the ESC that begins the other terminator. */
  lemma FeedCommand(m: Machine, payload: Bytes, last: byte)
    requires m.parser == CLEAN && |payload| <= 0x10_0000 && (last == 0x07 || last == 0x1b)
    requires forall i :: 0 <= i < |payload| ==> payload[i] >= 0x20
    ensures Feed(m, [0x1b, 0x5d] + payload + [last])
         == (m.(parser := Ended(last), clip := FinishOsc(m.clip, payload).0), FinishOsc(m.clip, payload).1)
  {
    var entered := m.(parser := Parser(Osc, [], false));
    var full := m.(parser := Parser(Osc, payload, false));
    FeedOpening(m, 0x5d, Osc);
    PayloadFillsBuffer(entered, [], payload);
    assert [] + payload == payload;
    FeedAppend(m, [0x1b, 0x5d], payload);
    FeedAppend(m, [0x1b, 0x5d] + payload, [last]);
    FeedOne(full, last);
    assert [] + [] + Step(full, last).1 == Step(full, last).1;
  }

  /** The bytes of all the envelopes. */
  ghost function Joined(queue: seq<Bytes>): Bytes {
    if queue == [] then [] else Joined(queue[..|queue| - 1]) + queue[|queue| - 1]
  }

  lemma {:induction false} TotalIsJoined(queue: seq<Bytes>)
    ensures TotalBytes(queue) == |Joined(queue)|
  {
    if queue != [] {
      TotalIsJoined(queue[..|queue| - 1]);
    }
  }

  /** At most 8 envelopes, and 2 MiB in all. */
  ghost predicate HasRoom(queue: seq<Bytes>, envelope: Bytes) {
    |queue| <= 7 && |Joined(queue)| + |envelope| <= 0x20_0000
  }

  ghost function Offered(queue: seq<Bytes>, envelope: Bytes): seq<Bytes> {
    if HasRoom(queue, envelope) then queue + [envelope] else queue
  }

  lemma EnqueueOffers(queue: seq<Bytes>, envelope: Bytes)
    requires envelope != []
    ensures Enqueue(queue, envelope) == Offered(queue, envelope)
  {
    TotalIsJoined(queue);
  }

  ghost predicate IsCharIn(b: byte, chars: string) {
    exists k :: 0 <= k < |chars| && chars[k] as int == b
  }

  ghost predicate IsSelections(sel: Bytes) {
    forall i :: 0 <= i < |sel| ==> IsCharIn(sel[i], "cpqs01234567")
  }

  ghost predicate IsEncoded(data: Bytes) {
    forall i :: 0 <= i < |data| ==> IsBase64Char(data[i] as char)
  }

  predicate IsBase64Char(c: char) {
    'A' <= c <= 'Z' || 'a' <= c <= 'z' || '0' <= c <= '9' || c == '+' || c == '/' || c == '='
  }

  lemma SelectionIsChar(b: byte)
    ensures IsSelection(b) <==> IsCharIn(b, "cpqs01234567")
  {
    var chars := "cpqs01234567";
    if IsSelection(b) {
      var k := if b == 0x63 then 0 else if b == 0x70 then 1 else if b == 0x71 then 2 else if b == 0x73 then 3 else b - 0x30 + 4;
      assert chars[k] as int == b;
    }
  }

  lemma Base64IsChar(b: byte)
    ensures IsBase64(b) <==> IsBase64Char(b as char)
  {
  }

  /** What the user and the policy together say of writing. */
  ghost predicate MayWrite(clip: Clipboard) { clip.onSet != SetDeny && clip.decision != Denied }

  ghost predicate MustAsk(clip: Clipboard) { clip.onSet == SetConfirm && clip.decision != Allowed }

  /** The queues after a well-formed request to read or to write the clipboard, given as the bytes passed on. */
  ghost function AfterRequest(clip: Clipboard, data: Bytes, envelope: Bytes): Clipboard {
    if data == [0x3f] then
      if clip.onGet == GetAllow then clip.(outgoing := Offered(clip.outgoing, envelope)) else clip
    else if !IsEncoded(data) || |data| > clip.maxBytes || !MayWrite(clip) then clip
    else if MustAsk(clip) then clip.(confirm := Offered(clip.confirm, envelope))
    else clip.(outgoing := Offered(clip.outgoing, envelope))
  }

  lemma {:induction false} FirstSemiIs(sel: Bytes, data: Bytes)
    requires SEMI !in sel
    ensures FirstSemi(sel + [SEMI] + data) == |sel|
  {
    var rest := sel + [SEMI] + data;
    if sel != [] {
      FirstSemiIs(sel[1..], data);
      assert rest[1..] == sel[1..] + [SEMI] + data;
    }
  }

  lemma RequestHandled(clip: Clipboard, sel: Bytes, data: Bytes, payload: Bytes)
    requires SEMI !in sel && payload == [0x35, 0x32, 0x3b] + (sel + [0x3b] + data) && |payload| <= 0x10_0000
    ensures HandleOsc52(clip, payload)
         == if IsSelections(sel) then AfterRequest(clip, data, [0x1b, 0x5d] + payload + [0x07]) else clip
  {
    var rest := sel + [SEMI] + data;
    assert payload[3..] == rest;
    FirstSemiIs(sel, data);
    assert rest[|sel| + 1..] == data;
    assert forall k :: 0 <= k < |sel| ==> rest[k] == sel[k];
    forall b: byte ensures IsSelection(b) <==> IsCharIn(b, "cpqs01234567") {
      SelectionIsChar(b);
    }
    forall k | 0 <= k < |data| ensures IsBase64(data[k]) <==> IsBase64Char(data[k] as char) {
      Base64IsChar(data[k]);
    }
    EnqueueOffers(clip.outgoing, Envelope(payload));
    EnqueueOffers(clip.confirm, Envelope(payload));
  }

  /** ESC ] 52 ; selections ; data: what is queued, and in which queue. */
  lemma RequestIsQueued(m: Machine, sel: Bytes, data: Bytes, last: byte)
    requires m.parser == CLEAN && SEMI !in sel && |sel| + |data| + 4 <= 0x10_0000 && (last == 0x07 || last == 0x1b)
    requires forall i :: 0 <= i < |sel| ==> sel[i] >= 0x20
    requires forall i :: 0 <= i < |data| ==> data[i] >= 0x20
    ensures var payload := [0x35, 0x32, 0x3b] + (sel + [0x3b] + data);
            var (after, out) := Feed(m, [0x1b, 0x5d] + payload + [last]);
            && out == [] && after.core == m.core && after.parser == Ended(last)
            && after.clip == if IsSelections(sel) then AfterRequest(m.clip, data, [0x1b, 0x5d] + payload + [0x07]) else m.clip
  {
    var payload := [0x35, 0x32, 0x3b] + (sel + [0x3b] + data);
    FeedCommand(m, payload, last);
    RequestHandled(m.clip, sel, data, payload);
    assert payload[..3] == [0x35, 0x32, SEMI];
  }

  /** The payload is a title: the number 0, 1 or 2 before the first semicolon, and at most 8192 bytes in all. */
  ghost predicate IsShortTitle(payload: Bytes) {
    2 <= |payload| <= 8192 && payload[0] in {0x30, 0x31, 0x32} && payload[1] == 0x3b
  }

  /** Any other command is dropped, but for titles, which are passed on; neither touches a queue. */
  lemma OthersAreDropped(m: Machine, payload: Bytes, last: byte)
    requires m.parser == CLEAN && |payload| <= 0x10_0000 && (last == 0x07 || last == 0x1b)
    requires forall i :: 0 <= i < |payload| ==> payload[i] >= 0x20
    requires !([0x35, 0x32, 0x3b] <= payload && 0x3b in payload[3..])
    ensures Feed(m, [0x1b, 0x5d] + payload + [last])
         == (m.(parser := Ended(last)), if IsShortTitle(payload) then [0x1b, 0x5d] + payload + [0x07] else [])
  {
    FeedCommand(m, payload, last);
    if [0x35, 0x32, 0x3b] <= payload {
      NoSemi(payload[3..]);
    }
  }

  lemma {:induction false} NoSemi(s: Bytes)
    requires SEMI !in s
    ensures FirstSemi(s) == |s|
  {
    if s != [] {
      NoSemi(s[1..]);
    }
  }
}
