/** The nonblocking queue of input bytes in front of a pane's pseudo-terminal. */
module PtyWriter {
  import opened Prelude

  type Byte = bv8

  const PTY_INPUT_MAX := 1024 * 1024

  /** One answer of the pseudo-terminal to an attempted write. */
  datatype Outcome =
    | Wrote(count: nat)  // zero means the write side is closed
    | Interrupted
    | WouldBlock
    | Failed

  /** How a drain ends; `Looping` when the recorded answers run out while it would still be trying. */
  datatype Ended = Emptied | Blocked | Closed | Broken | Looping

  /** The first write never covers more than the contiguous front of the queue, and never more than all of it. */
  function Accepts(count: nat, pending: seq<Byte>): nat {
    Min(count, |pending|)
  }

  /** What a drain hands over and leaves, answer by answer. */
  function Drain(pending: seq<Byte>, answers: seq<Outcome>): (seq<Byte>, seq<Byte>, Ended)
    decreases |answers|
  {
    if pending == [] then ([], [], Emptied)
    else if answers == [] then ([], pending, Looping)
    else
      match answers[0]
      case Wrote(count) =>
        if count == 0 then ([], pending, Closed)
        else
          var n := Accepts(count, pending);
          var (handed, left, ended) := Drain(pending[n..], answers[1..]);
          (pending[..n] + handed, left, ended)
      case Interrupted => Drain(pending, answers[1..])
      case WouldBlock => ([], pending, Blocked)
      case Failed => ([], [], Broken)
  }

  /** The result of `flush`: trouble below is an error, a full pseudo-terminal is not. */
  predicate FlushOk(ended: Ended, innerOk: bool) {
    ended == Blocked || (ended == Emptied && innerOk)
  }

  datatype Op =
    | Write(bytes: seq<Byte>, answers: seq<Outcome>, innerOk: bool)
    | Flush(answers: seq<Outcome>, innerOk: bool)

  /** The queue, and what went in and out of it so far; `broken` once a write failed hard. */
  datatype State = State(pending: seq<Byte>, delivered: seq<Byte>, accepted: seq<Byte>, broken: bool)

  function AfterDrain(s: State, answers: seq<Outcome>): State {
    var (handed, left, ended) := Drain(s.pending, answers);
    s.(pending := left, delivered := s.delivered + handed, broken := s.broken || ended == Broken)
  }

  /** The room left for more input. */
  function Room(s: State): nat {
    SatSub(PTY_INPUT_MAX, |s.pending|)
  }

  function Step(s: State, op: Op): (State, bool) {
    var (_, _, ended) := Drain(s.pending, op.answers);
    var drained := AfterDrain(s, op.answers);
    match op
    case Flush(_, innerOk) => (drained, FlushOk(ended, innerOk))
    case Write(bytes, _, innerOk) =>
      if !FlushOk(ended, innerOk) || |bytes| > Room(drained) then (drained, false)
      else (drained.(pending := drained.pending + bytes, accepted := drained.accepted + bytes), true)
  }

  // ----- the queue as it is updated in place -----

  class BufferedPtyWriter {
    var pending: seq<Byte>
    ghost var delivered: seq<Byte>
    ghost var accepted: seq<Byte>
    ghost var broken: bool

    constructor ()
      ensures View() == State([], [], [], false)
    {
      pending := [];
      delivered, accepted, broken := [], [], false;
    }

    ghost function View(): State
      reads this
    {
      State(pending, delivered, accepted, broken)
    }

    /** Offers the front of the queue again and again until it empties, blocks or fails. */
    method DrainPending(answers: seq<Outcome>) returns (ended: Ended)
      modifies this
      ensures View() == AfterDrain(old(View()), answers)
      ensures ended == Drain(old(pending), answers).2
    {
      var k := 0;
      ghost var start := View();
      ghost var handed := [];
      assert answers[k..] == answers;
      assert handed + Drain(pending, answers).0 == Drain(pending, answers).0;
      while pending != []
        invariant k <= |answers|
        invariant accepted == start.accepted && broken == start.broken && delivered == start.delivered + handed
        invariant var (h, left, e) := Drain(pending, answers[k..]);
                  Drain(start.pending, answers) == (handed + h, left, e)
        decreases |answers| - k
      {
        if k == |answers| {
          assert handed + [] == handed;
          return Looping;
        }
        var answer := answers[k];
        k := k + 1;
        assert answers[k - 1..][1..] == answers[k..];
        match answer
        case Wrote(count) =>
          if count == 0 {
            assert handed + [] == handed;
            return Closed;
          }
          var n := Accepts(count, pending);
          Assoc(handed, pending[..n], Drain(pending[n..], answers[k..]).0);
          Assoc(start.delivered, handed, pending[..n]);
          delivered := delivered + pending[..n];
          handed := handed + pending[..n];
          pending := pending[n..];
        case Interrupted =>
        case WouldBlock =>
          assert handed + [] == handed;
          return Blocked;
        case Failed =>
          assert handed + [] == handed;
          pending := [];
          broken := true;
          return Broken;
      }
      assert handed + [] == handed;
      return Emptied;
    }

    method Flush(answers: seq<Outcome>, innerOk: bool) returns (ok: bool)
      modifies this
      ensures (View(), ok) == Step(old(View()), Op.Flush(answers, innerOk))
    {
      var ended := DrainPending(answers);
      ok := FlushOk(ended, innerOk);
    }

    /** Drains what it can, then takes all of the bytes or none. */
    method Write(bytes: seq<Byte>, answers: seq<Outcome>, innerOk: bool) returns (ok: bool)
      modifies this
      ensures (View(), ok) == Step(old(View()), Op.Write(bytes, answers, innerOk))
    {
      ok := Flush(answers, innerOk);
      if !ok {
        return false;
      }
      if |bytes| > SatSub(PTY_INPUT_MAX, |pending|) {
        return false;
      }
      pending := pending + bytes;
      accepted := accepted + bytes;
      return true;
    }
  }

  // ----- first in, first out -----

  /** A drain hands over a front part of the queue and keeps the rest, unless a hard failure empties it. */
  lemma {:induction false} DrainSplits(pending: seq<Byte>, answers: seq<Outcome>)
    ensures var (handed, left, ended) := Drain(pending, answers);
            && handed <= pending
            && (ended != Broken ==> handed + left == pending)
            && (ended == Broken ==> left == [])
            && (ended == Emptied ==> left == [])
            && |left| <= |pending|
    decreases |answers|
  {
    if pending != [] && answers != [] {
      match answers[0]
      case Wrote(count) =>
        if count > 0 {
          var n := Accepts(count, pending);
          DrainSplits(pending[n..], answers[1..]);
          var (handed, left, ended) := Drain(pending[n..], answers[1..]);
          assert pending == pending[..n] + pending[n..];
          assert (pending[..n] + handed) + left == pending[..n] + (handed + left);
        }
      case Interrupted => DrainSplits(pending, answers[1..]);
      case WouldBlock =>
      case Failed =>
    }
  }

  function Run(s: State, ops: seq<Op>): State
    decreases |ops|
  {
    if ops == [] then s else Run(Step(s, ops[0]).0, ops[1..])
  }

  /** What holds between operations: bytes come out in the order they were accepted, and the queue is bounded. */
  ghost predicate InOrder(s: State) {
    (!s.broken ==> s.delivered + s.pending == s.accepted) && |s.pending| <= PTY_INPUT_MAX
  }

  lemma StepKeepsOrder(s: State, op: Op)
    requires InOrder(s)
    ensures InOrder(Step(s, op).0)
    ensures op.Write? && !Step(s, op).1 ==> Step(s, op).0.accepted == s.accepted
    ensures op.Write? && Step(s, op).1 ==> Step(s, op).0.accepted == s.accepted + op.bytes
  {
    var (handed, left, ended) := Drain(s.pending, op.answers);
    DrainSplits(s.pending, op.answers);
    assert (s.delivered + handed) + left == s.delivered + (handed + left);
    if op.Write? {
      assert (s.delivered + handed) + (left + op.bytes) == ((s.delivered + handed) + left) + op.bytes;
    }
  }

  /**
   * Input is first in, first out, over every run and every pattern of partial, interrupted, blocked and failing
   * writes: until a hard failure, bytes delivered followed by bytes pending are exactly the bytes accepted.
   */
  lemma {:induction false} PtyInputFifo(s: State, ops: seq<Op>)
    requires InOrder(s)
    ensures InOrder(Run(s, ops))
    decreases |ops|
  {
    if ops != [] {
      StepKeepsOrder(s, ops[0]);
      PtyInputFifo(Step(s, ops[0]).0, ops[1..]);
    }
  }

  /** A pseudo-terminal that keeps taking bytes empties the queue, within as many writes as there are bytes. */
  lemma {:induction false} DrainsEventually(pending: seq<Byte>, answers: seq<Outcome>)
    requires |pending| <= |answers| && forall i :: 0 <= i < |answers| ==> answers[i].Wrote? && answers[i].count > 0
    ensures Drain(pending, answers) == (pending, [], Emptied)
    decreases |answers|
  {
    if pending != [] {
      var n := Accepts(answers[0].count, pending);
      DrainsEventually(pending[n..], answers[1..]);
      assert pending[..n] + pending[n..] == pending;
    }
  }

  // ----- what a drain does, from its answers -----

  /** The terminal took some bytes, or the write was merely interrupted. */
  predicate GoesOn(answer: Outcome) { (answer.Wrote? && answer.count > 0) || answer.Interrupted? }

  /** How many bytes the terminal was ready to take in all. */
  function Taken(answers: seq<Outcome>): nat {
    if answers == [] then 0 else (if answers[0].Wrote? then answers[0].count else 0) + Taken(answers[1..])
  }

  /** The end that an answer makes. */
  ghost predicate EndsAs(answer: Outcome, ended: Ended) {
    match ended
    case Blocked => answer.WouldBlock?
    case Closed => answer == Wrote(0)
    case Broken => answer.Failed?
    case _ => false
  }

  /**
   * After `k` answers with which it goes on: either they took the whole queue, or the drain has handed over as many
   * bytes as they took, and the next answer decides.
   */
  lemma {:induction false} DrainFollowsAnswers(pending: seq<Byte>, answers: seq<Outcome>, k: nat)
    requires k <= |answers| && forall i :: 0 <= i < k ==> GoesOn(answers[i])
    ensures var (n, (handed, left, ended)) := (Taken(answers[..k]), Drain(pending, answers));
            && (n >= |pending| ==> handed == pending && left == [] && ended == Emptied)
            && (n < |pending| && k == |answers| ==> handed == pending[..n] && left == pending[n..] && ended == Looping)
            && (n < |pending| && k < |answers| && !GoesOn(answers[k]) ==>
                  handed == pending[..n] && EndsAs(answers[k], ended) && left == if ended == Broken then [] else pending[n..])
    decreases |answers|
  {
    if k > 0 && pending != [] {
      var rest := answers[1..];
      assert answers[..k][1..] == rest[..k - 1];
      match answers[0]
      case Wrote(count) =>
        var n := Accepts(count, pending);
        DrainFollowsAnswers(pending[n..], rest, k - 1);
        HandedOver(pending, n, Taken(rest[..k - 1]));
      case Interrupted => DrainFollowsAnswers(pending, rest, k - 1);
    }
  }

  lemma HandedOver(pending: seq<Byte>, n: nat, more: nat)
    requires n <= |pending|
    ensures pending[..n] + pending[n..] == pending
    ensures more <= |pending| - n ==>
              pending[..n] + pending[n..][..more] == pending[..n + more] && pending[n..][more..] == pending[n + more..]
  {
  }

  /**
   * When a write is accepted: the drain before it emptied the queue and the terminal flushed, or it was merely told to
   * wait, and the bytes fit beside what is left.
   */
  lemma AcceptedExactlyWhenRoom(s: State, bytes: seq<Byte>, answers: seq<Outcome>, innerOk: bool)
    requires |s.pending| <= 0x10_0000
    ensures var (_, left, ended) := Drain(s.pending, answers);
            var (after, ok) := Step(s, Op.Write(bytes, answers, innerOk));
            && (ok <==> ((ended == Emptied && innerOk) || ended == Blocked) && |left| + |bytes| <= 0x10_0000)
            && after.pending == if ok then left + bytes else left
  {
    DrainSplits(s.pending, answers);
  }

  /** Flushing reports an error exactly when the drain or the terminal's own flush does. */
  lemma FlushReports(s: State, answers: seq<Outcome>, innerOk: bool)
    ensures var (_, left, ended) := Drain(s.pending, answers);
            var (after, ok) := Step(s, Op.Flush(answers, innerOk));
            && (ended != Looping ==> (!ok <==> ended == Closed || ended == Broken || (ended == Emptied && !innerOk)))
            && after.pending == left && after.accepted == s.accepted
  {
  }
}
