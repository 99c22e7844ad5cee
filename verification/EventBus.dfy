/** The in-process event bus: bounded subscriber queues and exact accounting of what they lost. */
module EventBus {
  import opened Prelude

  const MAX_QUEUE_DEPTH := 1000

  datatype Event = Event(tag: string, session: Option<string>, body: string)

  /** What travels in a queue: a published event, or a notice that so many were dropped. */
  datatype Item = Payload(event: Event) | Notice(count: nat)

  datatype Subscriber = Subscriber(
    id: nat,
    sessionFilter: Option<string>,
    typeFilter: Option<seq<string>>,
    queue: seq<Item>,
    connected: bool,
    dropped: nat,
    preferPayload: bool)

  predicate Matches(sub: Subscriber, event: Event) {
    && (sub.sessionFilter.Some? ==> event.session == sub.sessionFilter)
    && (sub.typeFilter.Some? ==> event.tag in sub.typeFilter.value)
  }

  /** What the consumer does between two sends to it: takes some items, or hangs up. */
  datatype Meanwhile = Meanwhile(taken: nat, hungUp: bool)

  /** The effect of one publish on one subscriber. */
  datatype Delivery = Delivery(sub: Subscriber, enqueued: seq<Item>, gone: bool)

  function Take(sub: Subscriber, taken: nat): Subscriber {
    sub.(queue := sub.queue[Min(taken, |sub.queue|)..])
  }

  function SendPayload(sub: Subscriber, event: Event): (d: Delivery)
    ensures d.sub.id == sub.id
  {
    if !sub.connected then Delivery(sub, [], true)
    else if |sub.queue| >= MAX_QUEUE_DEPTH then Delivery(sub.(dropped := sub.dropped + 1), [], false)
    else Delivery(sub.(queue := sub.queue + [Payload(event)], preferPayload := false), [Payload(event)], false)
  }

  /** A pending loss is announced first, unless the last thing sent was itself such a notice. */
  function Deliver(sub: Subscriber, event: Event, between: Meanwhile): (d: Delivery)
    ensures d.sub.id == sub.id
  {
    if !Matches(sub, event) then Delivery(sub, [], false)
    else if sub.dropped > 0 && !sub.preferPayload then
      if !sub.connected then Delivery(sub, [], true)
      else if |sub.queue| >= MAX_QUEUE_DEPTH then Delivery(sub.(dropped := sub.dropped + 1), [], false)
      else
        var notice := Notice(sub.dropped);
        var told := sub.(queue := sub.queue + [notice], dropped := 0, preferPayload := true);
        var later := Take(told, between.taken).(connected := !between.hungUp);
        var rest := SendPayload(later, event);
        rest.(enqueued := [notice] + rest.enqueued)
    else SendPayload(sub, event)
  }

  // ----- the bus -----

  function Deliveries(subs: seq<Subscriber>, event: Event, between: seq<Meanwhile>): (r: seq<Delivery>)
    requires |between| == |subs|
    ensures |r| == |subs|
  {
    seq(|subs|, i requires 0 <= i < |subs| => Deliver(subs[i], event, between[i]))
  }

  /** The subscribers of the deliveries that did not find their receiver gone. */
  function Remaining(deliveries: seq<Delivery>): seq<Subscriber> {
    if deliveries == [] then []
    else
      var n := |deliveries| - 1;
      Remaining(deliveries[..n]) + (if deliveries[n].gone then [] else [deliveries[n].sub])
  }

  /** The ids the deliveries found gone. */
  function GoneIds(deliveries: seq<Delivery>): seq<nat> {
    if deliveries == [] then []
    else
      var n := |deliveries| - 1;
      GoneIds(deliveries[..n]) + (if deliveries[n].gone then [deliveries[n].sub.id] else [])
  }

  function SubsOf(deliveries: seq<Delivery>): seq<Subscriber> {
    seq(|deliveries|, i requires 0 <= i < |deliveries| => deliveries[i].sub)
  }

  function Retain(subs: seq<Subscriber>, removed: seq<nat>): seq<Subscriber> {
    if subs == [] then []
    else
      var n := |subs| - 1;
      Retain(subs[..n], removed) + (if subs[n].id in removed then [] else [subs[n]])
  }

  ghost predicate DistinctIds(subs: seq<Subscriber>) {
    forall i, j :: 0 <= i < j < |subs| ==> subs[i].id != subs[j].id
  }

  class Bus {
    var subs: seq<Subscriber>
    var nextId: nat

    ghost predicate Valid()
      reads this
    {
      DistinctIds(subs) && forall i :: 0 <= i < |subs| ==> subs[i].id < nextId
    }

    constructor ()
      ensures Valid() && subs == [] && nextId == 1
    {
      subs, nextId := [], 1;
    }

    method Subscribe(sessionFilter: Option<string>, typeFilter: Option<seq<string>>) returns (id: nat)
      requires Valid()
      modifies this
      ensures Valid() && id == old(nextId) && nextId == old(nextId) + 1
      ensures subs == old(subs) + [Subscriber(id, sessionFilter, typeFilter, [], true, 0, false)]
    {
      id := nextId;
      nextId := nextId + 1;
      subs := subs + [Subscriber(id, sessionFilter, typeFilter, [], true, 0, false)];
    }

    method Unsubscribe(id: nat)
      requires Valid()
      modifies this`subs
      ensures Valid() && subs == Retain(old(subs), [id])
      ensures forall i :: 0 <= i < |subs| ==> subs[i].id != id
    {
      RetainKeeps(subs, [id]);
      subs := Retain(subs, [id]);
    }

    /** Offers the event to every matching subscriber in turn, then forgets those that turned out to be gone. */
    method Publish(event: Event, between: seq<Meanwhile>)
      requires Valid() && |between| == |subs|
      modifies this`subs
      ensures Valid()
      ensures subs == Remaining(Deliveries(old(subs), event, between))
    {
      var toRemove: seq<nat> := [];
      ghost var before := subs;
      ghost var all := Deliveries(subs, event, between);
      for i := 0 to |subs|
        invariant |subs| == |before|
        invariant forall j :: 0 <= j < |subs| ==> subs[j] == if j < i then all[j].sub else before[j]
        invariant toRemove == GoneIds(all[..i])
      {
        var d := Deliver(subs[i], event, between[i]);
        assert d == all[i];
        subs := subs[i := d.sub];
        assert all[..i + 1][..i] == all[..i];
        if d.gone {
          toRemove := toRemove + [d.sub.id];
        }
      }
      assert all[..|all|] == all;
      assert subs == SubsOf(all);
      IdsKept(before, event, between);
      RetainIsRemaining(all);
      RetainKeeps(subs, toRemove);
      subs := Retain(subs, toRemove);
    }
  }

  lemma IdsKept(subs: seq<Subscriber>, event: Event, between: seq<Meanwhile>)
    requires |between| == |subs| && DistinctIds(subs)
    ensures DistinctIds(SubsOf(Deliveries(subs, event, between)))
    ensures forall i :: 0 <= i < |subs| ==> SubsOf(Deliveries(subs, event, between))[i].id == subs[i].id
  {
  }

  lemma {:induction false} RetainKeeps(subs: seq<Subscriber>, removed: seq<nat>)
    requires DistinctIds(subs)
    ensures DistinctIds(Retain(subs, removed))
    ensures forall s :: s in Retain(subs, removed) <==> s in subs && s.id !in removed
    ensures forall i :: 0 <= i < |Retain(subs, removed)| ==> Retain(subs, removed)[i] in subs && Retain(subs, removed)[i].id !in removed
  {
    if subs != [] {
      var n := |subs| - 1;
      RetainKeeps(subs[..n], removed);
      assert subs == subs[..n] + [subs[n]];
    }
  }

  lemma {:induction false} GoneIdsAre(all: seq<Delivery>, k: nat)
    requires k < |all| && DistinctIds(SubsOf(all))
    ensures all[k].sub.id in GoneIds(all) <==> all[k].gone
  {
    var n := |all| - 1;
    assert SubsOf(all[..n]) == SubsOf(all)[..n];
    if k < n {
      GoneIdsAre(all[..n], k);
      assert SubsOf(all)[k].id != SubsOf(all)[n].id;
    } else {
      forall i | 0 <= i < n ensures all[i].sub.id != all[n].sub.id {
        assert SubsOf(all)[i].id != SubsOf(all)[n].id;
      }
      NotAmong(all[..n], all[n].sub.id);
    }
  }

  lemma {:induction false} NotAmong(all: seq<Delivery>, id: nat)
    requires forall i :: 0 <= i < |all| ==> all[i].sub.id != id
    ensures id !in GoneIds(all)
  {
    if all != [] {
      NotAmong(all[..|all| - 1], id);
    }
  }

  lemma {:induction false} RetainBy(all: seq<Delivery>, removed: seq<nat>)
    requires forall k :: 0 <= k < |all| ==> (all[k].sub.id in removed <==> all[k].gone)
    ensures Retain(SubsOf(all), removed) == Remaining(all)
  {
    if all != [] {
      var n := |all| - 1;
      assert SubsOf(all)[..n] == SubsOf(all[..n]);
      RetainBy(all[..n], removed);
    }
  }

  /** Forgetting by id removes exactly the subscribers found gone, because ids are distinct. */
  lemma RetainIsRemaining(all: seq<Delivery>)
    requires DistinctIds(SubsOf(all))
    ensures Retain(SubsOf(all), GoneIds(all)) == Remaining(all)
  {
    forall k | 0 <= k < |all| ensures all[k].sub.id in GoneIds(all) <==> all[k].gone {
      GoneIdsAre(all, k);
    }
    RetainBy(all, GoneIds(all));
  }

  // ----- the life of one subscriber -----

  datatype Action =
    | Publish(event: Event, between: Meanwhile)
    | Receive(taken: nat)
    | HangUp

  /**
   * One subscriber with its past: the events it asked for that were published while it was listening, everything ever
   * put in its queue, and how many payloads were put there since a loss went unannounced.
   */
  datatype Life = Life(sub: Subscriber, wanted: seq<Event>, log: seq<Item>, late: nat, gone: bool)

  function Payloads(log: seq<Item>): seq<Event> {
    if log == [] then []
    else
      var n := |log| - 1;
      Payloads(log[..n]) + (if log[n].Payload? then [log[n].event] else [])
  }

  /** The sum of the counts of the notices. */
  function Announced(log: seq<Item>): nat {
    if log == [] then 0
    else
      var n := |log| - 1;
      Announced(log[..n]) + (if log[n].Notice? then log[n].count else 0)
  }

  /** What a subscription asks for: events of the one session, if it names one, with one of the tags, if it lists any. */
  ghost predicate AsksFor(sessionFilter: Option<string>, typeFilter: Option<seq<string>>, event: Event) {
    && (forall session :: sessionFilter == Some(session) ==> event.session == Some(session))
    && (forall tags :: typeFilter == Some(tags) ==> exists k :: 0 <= k < |tags| && tags[k] == event.tag)
  }

  lemma MatchesAsked(sub: Subscriber, event: Event)
    ensures Matches(sub, event) <==> AsksFor(sub.sessionFilter, sub.typeFilter, event)
  {
  }

  function LateAfter(life: Life, d: Delivery): nat {
    if d.sub.dropped == 0 || (d.enqueued != [] && d.enqueued[0].Notice?) then 0
    else if d.enqueued != [] then life.late + 1
    else life.late
  }

  ghost function Next(life: Life, action: Action): Life {
    if life.gone then life
    else
      match action
      case Receive(taken) => life.(sub := Take(life.sub, taken))
      case HangUp => life.(sub := life.sub.(connected := false))
      case Publish(event, between) =>
        var d := Deliver(life.sub, event, between);
        var asked := AsksFor(life.sub.sessionFilter, life.sub.typeFilter, event);
        if d.gone then life.(gone := true)
        else
          Life(d.sub, if asked then life.wanted + [event] else life.wanted, life.log + d.enqueued,
               if asked then LateAfter(life, d) else life.late, false)
  }

  ghost function Live(life: Life, actions: seq<Action>): Life
    decreases |actions|
  {
    if actions == [] then life else Live(Next(life, actions[0]), actions[1..])
  }

  function Fresh(id: nat, sessionFilter: Option<string>, typeFilter: Option<seq<string>>): Life {
    Life(Subscriber(id, sessionFilter, typeFilter, [], true, 0, false), [], [], 0, false)
  }

  /** `xs` arises from `ys` by leaving elements out. */
  ghost predicate Subsequence<T(!new)>(xs: seq<T>, ys: seq<T>)
    decreases |ys|
  {
    if xs == [] then true
    else if ys == [] then false
    else
      var (x, y) := (xs[|xs| - 1], ys[|ys| - 1]);
      (x == y && Subsequence(xs[..|xs| - 1], ys[..|ys| - 1])) || Subsequence(xs, ys[..|ys| - 1])
  }

  ghost predicate NoAdjacentNotices(log: seq<Item>) {
    forall i :: 0 <= i < |log| - 1 ==> !(log[i].Notice? && log[i + 1].Notice?)
  }

  ghost predicate EndsInNotice(log: seq<Item>) {
    log != [] && log[|log| - 1].Notice?
  }

  /** Every event asked for is a payload in the log, a loss announced in the log, or a loss still pending. */
  ghost predicate CountsBalance(life: Life) {
    |life.wanted| == |Payloads(life.log)| + Announced(life.log) + life.sub.dropped
  }

  ghost predicate InOrder(life: Life) {
    Subsequence(Payloads(life.log), life.wanted)
  }

  ghost predicate NoticesApart(life: Life) {
    NoAdjacentNotices(life.log) && (life.sub.preferPayload <==> EndsInNotice(life.log))
  }

  /** The queue is bounded, and is what is left of the log at its end. */
  ghost predicate QueueIsTail(life: Life) {
    var q := life.sub.queue;
    |q| <= 1000 && |q| <= |life.log| && q == life.log[|life.log| - |q|..]
  }

  ghost predicate AtMostOneLate(life: Life) {
    life.late <= 1 && (life.sub.dropped == 0 || life.sub.preferPayload ==> life.late == 0)
  }

  /** The accounts of a subscriber balance. */
  ghost predicate Balanced(life: Life) {
    CountsBalance(life) && InOrder(life) && NoticesApart(life) && QueueIsTail(life) && AtMostOneLate(life)
  }

  // ----- appending to a log -----

  lemma LogSnoc(log: seq<Item>, item: Item)
    ensures Payloads(log + [item]) == Payloads(log) + (if item.Payload? then [item.event] else [])
    ensures Announced(log + [item]) == Announced(log) + (if item.Notice? then item.count else 0)
  {
    var longer := log + [item];
    assert longer[..|longer| - 1] == log;
  }

  lemma SubsequenceGrows<T(!new)>(xs: seq<T>, ys: seq<T>, y: T)
    requires Subsequence(xs, ys)
    ensures Subsequence(xs, ys + [y])
    ensures Subsequence(xs + [y], ys + [y])
  {
    var longer := ys + [y];
    assert longer[..|longer| - 1] == ys;
    var more := xs + [y];
    assert more[..|more| - 1] == xs;
  }

  lemma SuffixSnoc(log: seq<Item>, queue: seq<Item>, item: Item)
    requires |queue| <= |log| && queue == log[|log| - |queue|..]
    ensures queue + [item] == (log + [item])[|log| - |queue|..]
  {
  }

  lemma SuffixTake(log: seq<Item>, queue: seq<Item>, taken: nat)
    requires |queue| <= |log| && queue == log[|log| - |queue|..]
    ensures var rest := queue[Min(taken, |queue|)..]; rest == log[|log| - |rest|..]
  {
  }

  // ----- the ways a life moves on -----

  function Lose(life: Life, event: Event): Life {
    life.(sub := life.sub.(dropped := life.sub.dropped + 1), wanted := life.wanted + [event])
  }

  function PutPayload(life: Life, event: Event): Life {
    Life(life.sub.(queue := life.sub.queue + [Payload(event)], preferPayload := false),
         life.wanted + [event], life.log + [Payload(event)],
         if life.sub.dropped == 0 then 0 else life.late + 1, false)
  }

  function PutNotice(life: Life): Life {
    var notice := Notice(life.sub.dropped);
    Life(life.sub.(queue := life.sub.queue + [notice], dropped := 0, preferPayload := true),
         life.wanted, life.log + [notice], 0, false)
  }

  lemma LoseBalances(life: Life, event: Event)
    requires Balanced(life)
    ensures Balanced(Lose(life, event))
  {
    SubsequenceGrows(Payloads(life.log), life.wanted, event);
  }

  lemma PutPayloadBalances(life: Life, event: Event)
    requires Balanced(life) && |life.sub.queue| < MAX_QUEUE_DEPTH
    requires life.sub.dropped == 0 || life.sub.preferPayload
    ensures Balanced(PutPayload(life, event))
  {
    var next := PutPayload(life, event);
    assert CountsBalance(next) by { LogSnoc(life.log, Payload(event)); }
    assert InOrder(next) by {
      LogSnoc(life.log, Payload(event));
      SubsequenceGrows(Payloads(life.log), life.wanted, event);
    }
    assert QueueIsTail(next) by { SuffixSnoc(life.log, life.sub.queue, Payload(event)); }
  }

  lemma NoticeKeepsCounts(life: Life)
    requires CountsBalance(life)
    ensures CountsBalance(PutNotice(life))
  {
    LogSnoc(life.log, Notice(life.sub.dropped));
  }

  lemma NoticeKeepsOrder(life: Life)
    requires InOrder(life)
    ensures InOrder(PutNotice(life))
  {
    LogSnoc(life.log, Notice(life.sub.dropped));
    assert Payloads(life.log) + [] == Payloads(life.log);
  }

  lemma NoticeKeepsTail(life: Life)
    requires QueueIsTail(life) && |life.sub.queue| < MAX_QUEUE_DEPTH
    ensures QueueIsTail(PutNotice(life))
  {
    SuffixSnoc(life.log, life.sub.queue, Notice(life.sub.dropped));
  }

  lemma PutNoticeBalances(life: Life)
    requires Balanced(life) && |life.sub.queue| < MAX_QUEUE_DEPTH && !life.sub.preferPayload
    ensures Balanced(PutNotice(life))
  {
    NoticeKeepsCounts(life);
    NoticeKeepsOrder(life);
    NoticeKeepsTail(life);
  }

  lemma TakeBalances(life: Life, taken: nat, connected: bool)
    requires Balanced(life)
    ensures Balanced(life.(sub := Take(life.sub, taken).(connected := connected)))
  {
    SuffixTake(life.log, life.sub.queue, taken);
  }

  /** One publish is at most a notice, some reading, and then a payload or a loss. */
  lemma PublishMoves(life: Life, event: Event, between: Meanwhile)
    requires !life.gone && AsksFor(life.sub.sessionFilter, life.sub.typeFilter, event)
    ensures var next := Next(life, Publish(event, between));
            var sub := life.sub;
            if !sub.connected then next == life.(gone := true)
            else if |sub.queue| >= MAX_QUEUE_DEPTH then next == Lose(life, event)
            else if sub.dropped == 0 || sub.preferPayload then next == PutPayload(life, event)
            else
              var told := PutNotice(life);
              var later := told.(sub := Take(told.sub, between.taken).(connected := !between.hungUp));
              if between.hungUp then next == life.(gone := true)
              else if |later.sub.queue| >= MAX_QUEUE_DEPTH then next == Lose(later, event)
              else next == PutPayload(later, event)
  {
    var sub := life.sub;
    MatchesAsked(sub, event);
    assert life.log + [] == life.log;
    if sub.connected && |sub.queue| < MAX_QUEUE_DEPTH && sub.dropped > 0 && !sub.preferPayload {
      var notice := Notice(sub.dropped);
      assert (life.log + [notice]) + [Payload(event)] == life.log + ([notice] + [Payload(event)]);
      assert [notice] + [] == [notice];
    }
  }

  lemma PublishBalances(life: Life, event: Event, between: Meanwhile)
    requires Balanced(life) && !life.gone && AsksFor(life.sub.sessionFilter, life.sub.typeFilter, event)
    ensures Balanced(Next(life, Publish(event, between)))
  {
    var sub := life.sub;
    PublishMoves(life, event, between);
    if !sub.connected {
    } else if |sub.queue| >= MAX_QUEUE_DEPTH {
      LoseBalances(life, event);
    } else if sub.dropped == 0 || sub.preferPayload {
      PutPayloadBalances(life, event);
    } else {
      PutNoticeBalances(life);
      var told := PutNotice(life);
      TakeBalances(told, between.taken, !between.hungUp);
      var later := told.(sub := Take(told.sub, between.taken).(connected := !between.hungUp));
      if between.hungUp {
      } else if |later.sub.queue| >= MAX_QUEUE_DEPTH {
        LoseBalances(later, event);
      } else {
        PutPayloadBalances(later, event);
      }
    }
  }

  /** Events that were not asked for change nothing. */
  lemma OthersPassBy(life: Life, event: Event, between: Meanwhile)
    requires !AsksFor(life.sub.sessionFilter, life.sub.typeFilter, event)
    ensures Next(life, Publish(event, between)) == life
  {
    MatchesAsked(life.sub, event);
    assert life.log + [] == life.log;
  }

  lemma NextBalances(life: Life, action: Action)
    requires Balanced(life)
    ensures Balanced(Next(life, action))
  {
    match action
    case Receive(taken) => TakeBalances(life, taken, life.sub.connected);
    case HangUp => TakeBalances(life, 0, false);
    case Publish(event, between) =>
      if !life.gone {
        if AsksFor(life.sub.sessionFilter, life.sub.typeFilter, event) {
          PublishBalances(life, event, between);
        } else {
          OthersPassBy(life, event, between);
        }
      }
  }

  lemma {:induction false} LiveBalances(life: Life, actions: seq<Action>)
    requires Balanced(life)
    ensures Balanced(Live(life, actions))
    decreases |actions|
  {
    if actions != [] {
      NextBalances(life, actions[0]);
      LiveBalances(Next(life, actions[0]), actions[1..]);
    }
  }

  /**
   * Loss accounting, for every subscriber and every interleaving of publishes, receives and a hang-up: events
   * asked for equal payloads enqueued plus losses announced plus losses pending; payloads keep their order; notices
   * are never adjacent; the queue is bounded; and at most one payload overtakes the notice of a loss.
   */
  lemma LossAccounting(id: nat, sessionFilter: Option<string>, typeFilter: Option<seq<string>>, actions: seq<Action>)
    ensures Balanced(Live(Fresh(id, sessionFilter, typeFilter), actions))
  {
    LiveBalances(Fresh(id, sessionFilter, typeFilter), actions);
  }

  // ----- what is delivered -----

  /** The event the action publishes, if the subscription asks for it and its receiver is still there. */
  ghost function AskedNow(
    sessionFilter: Option<string>, typeFilter: Option<seq<string>>, life: Life, action: Action): seq<Event>
  {
    if action.Publish? && !Next(life, action).gone && AsksFor(sessionFilter, typeFilter, action.event) then [action.event]
    else []
  }

  /** The events asked for in a run, in the order of publication. */
  ghost function Asked(
    sessionFilter: Option<string>, typeFilter: Option<seq<string>>, life: Life, actions: seq<Action>): seq<Event>
    decreases |actions|
  {
    if actions == [] then []
    else
      AskedNow(sessionFilter, typeFilter, life, actions[0])
      + Asked(sessionFilter, typeFilter, Next(life, actions[0]), actions[1..])
  }

  lemma NextWants(life: Life, action: Action)
    ensures var next := Next(life, action);
            && next.sub.sessionFilter == life.sub.sessionFilter && next.sub.typeFilter == life.sub.typeFilter
            && next.wanted == life.wanted + AskedNow(life.sub.sessionFilter, life.sub.typeFilter, life, action)
  {
    assert life.wanted + [] == life.wanted;
    if action.Publish? && !life.gone {
      MatchesAsked(life.sub, action.event);
    }
  }

  lemma {:induction false} WantedIsAsked(life: Life, actions: seq<Action>)
    ensures var after := Live(life, actions);
            && after.sub.sessionFilter == life.sub.sessionFilter && after.sub.typeFilter == life.sub.typeFilter
            && after.wanted == life.wanted + Asked(life.sub.sessionFilter, life.sub.typeFilter, life, actions)
    decreases |actions|
  {
    if actions == [] {
      assert life.wanted + [] == life.wanted;
    } else {
      var (session, types, next) := (life.sub.sessionFilter, life.sub.typeFilter, Next(life, actions[0]));
      NextWants(life, actions[0]);
      WantedIsAsked(next, actions[1..]);
      Assoc(life.wanted, AskedNow(session, types, life, actions[0]), Asked(session, types, next, actions[1..]));
    }
  }

  lemma {:induction false} AskedFor(
    sessionFilter: Option<string>, typeFilter: Option<seq<string>>, life: Life, actions: seq<Action>, event: Event)
    requires event in Asked(sessionFilter, typeFilter, life, actions)
    ensures AsksFor(sessionFilter, typeFilter, event)
    decreases |actions|
  {
    var next := Next(life, actions[0]);
    if event in Asked(sessionFilter, typeFilter, next, actions[1..]) {
      AskedFor(sessionFilter, typeFilter, next, actions[1..], event);
    }
  }

  lemma {:induction false} SubsequenceHas<T(!new)>(xs: seq<T>, ys: seq<T>, x: T)
    requires Subsequence(xs, ys) && x in xs
    ensures x in ys
    decreases |ys|
  {
    var (n, m) := (|xs| - 1, |ys| - 1);
    if x == xs[n] == ys[m] {
    } else if xs[n] == ys[m] && Subsequence(xs[..n], ys[..m]) {
      assert xs == xs[..n] + [xs[n]];
      SubsequenceHas(xs[..n], ys[..m], x);
    } else {
      SubsequenceHas(xs, ys[..m], x);
    }
  }

  lemma {:induction false} PayloadIn(log: seq<Item>, i: nat)
    requires i < |log| && log[i].Payload?
    ensures log[i].event in Payloads(log)
  {
    if i < |log| - 1 {
      PayloadIn(log[..|log| - 1], i);
    }
  }

  /**
   * What a subscriber gets, over every run from its subscription on: only events with the session and one of the tags
   * it asked for, in the order of publication; and each such event is enqueued, announced as lost, or about to be.
   */
  lemma DeliversWhatWasAsked(id: nat, sessionFilter: Option<string>, typeFilter: Option<seq<string>>, actions: seq<Action>)
    ensures var life := Live(Fresh(id, sessionFilter, typeFilter), actions);
            var asked := Asked(sessionFilter, typeFilter, Fresh(id, sessionFilter, typeFilter), actions);
            && Subsequence(Payloads(life.log), asked)
            && |asked| == |Payloads(life.log)| + Announced(life.log) + life.sub.dropped
            && forall i :: 0 <= i < |life.log| && life.log[i].Payload? ==>
                 && (sessionFilter.Some? ==> life.log[i].event.session == sessionFilter)
                 && (typeFilter.Some? ==> life.log[i].event.tag in typeFilter.value)
  {
    var start := Fresh(id, sessionFilter, typeFilter);
    var life := Live(start, actions);
    var asked := Asked(sessionFilter, typeFilter, start, actions);
    LossAccounting(id, sessionFilter, typeFilter, actions);
    WantedIsAsked(start, actions);
    assert start.wanted + asked == asked;
    forall i | 0 <= i < |life.log| && life.log[i].Payload?
      ensures AsksFor(sessionFilter, typeFilter, life.log[i].event)
    {
      PayloadIn(life.log, i);
      SubsequenceHas(Payloads(life.log), asked, life.log[i].event);
      AskedFor(sessionFilter, typeFilter, start, actions, life.log[i].event);
    }
  }

  function AsPayloads(events: seq<Event>): seq<Item> {
    seq(|events|, i requires 0 <= i < |events| => Payload(events[i]))
  }

  /** Nothing has been lost so far. */
  ghost predicate Lossless(life: Life) {
    && life.sub.dropped == 0 && !life.sub.preferPayload && life.log == AsPayloads(life.wanted)
    && |life.sub.queue| <= |life.log| && life.sub.queue == life.log[|life.log| - |life.sub.queue|..]
  }

  lemma PutLossless(life: Life, event: Event)
    requires Lossless(life)
    ensures Lossless(PutPayload(life, event))
    ensures life.sub.queue == life.log ==> PutPayload(life, event).sub.queue == PutPayload(life, event).log
  {
    SuffixSnoc(life.log, life.sub.queue, Payload(event));
    assert AsPayloads(life.wanted) + [Payload(event)] == AsPayloads(life.wanted + [event]);
  }

  lemma PublishLossless(life: Life, event: Event, between: Meanwhile)
    requires Lossless(life) && !life.gone && AsksFor(life.sub.sessionFilter, life.sub.typeFilter, event)
    requires |life.log| < MAX_QUEUE_DEPTH
    ensures var next := Next(life, Publish(event, between)); next == life.(gone := true) || next == PutPayload(life, event)
  {
    PublishMoves(life, event, between);
  }

  lemma NextLossless(life: Life, action: Action)
    requires Lossless(life) && |Next(life, action).wanted| <= MAX_QUEUE_DEPTH
    ensures Lossless(Next(life, action))
    ensures !action.Receive? && life.sub.queue == life.log ==> Next(life, action).sub.queue == Next(life, action).log
  {
    match action
    case Receive(taken) => SuffixTake(life.log, life.sub.queue, taken);
    case HangUp =>
    case Publish(event, between) =>
      if !life.gone && AsksFor(life.sub.sessionFilter, life.sub.typeFilter, event) {
        NextWants(life, action);
        if !Next(life, action).gone {
          PublishLossless(life, event, between);
          PutLossless(life, event);
        }
      } else if !life.gone {
        OthersPassBy(life, event, between);
      }
  }

  lemma {:induction false} StaysLossless(life: Life, actions: seq<Action>)
    requires Lossless(life) && |Live(life, actions).wanted| <= MAX_QUEUE_DEPTH
    ensures Lossless(Live(life, actions))
    ensures (forall i :: 0 <= i < |actions| ==> !actions[i].Receive?) && life.sub.queue == life.log ==>
              Live(life, actions).sub.queue == Live(life, actions).log
    decreases |actions|
  {
    if actions != [] {
      WantedIsAsked(Next(life, actions[0]), actions[1..]);
      NextLossless(life, actions[0]);
      StaysLossless(Next(life, actions[0]), actions[1..]);
    }
  }

  /** As long as no more than 1000 events were asked for, all of them are enqueued in order, whoever reads and when. */
  lemma SmallRunsLoseNothing(id: nat, sessionFilter: Option<string>, typeFilter: Option<seq<string>>, actions: seq<Action>)
    requires |Asked(sessionFilter, typeFilter, Fresh(id, sessionFilter, typeFilter), actions)| <= 1000
    ensures var life := Live(Fresh(id, sessionFilter, typeFilter), actions);
            var asked := Asked(sessionFilter, typeFilter, Fresh(id, sessionFilter, typeFilter), actions);
            && life.sub.dropped == 0 && life.log == AsPayloads(asked)
            && ((forall i :: 0 <= i < |actions| ==> !actions[i].Receive?) ==> life.sub.queue == AsPayloads(asked))
  {
    var start := Fresh(id, sessionFilter, typeFilter);
    WantedIsAsked(start, actions);
    assert start.wanted + Asked(sessionFilter, typeFilter, start, actions) == Asked(sessionFilter, typeFilter, start, actions);
    StaysLossless(start, actions);
  }

  /** Notices cannot starve payloads: there is at most one more notice than there are payloads. */
  lemma {:induction false} NoticesBounded(log: seq<Item>)
    requires NoAdjacentNotices(log)
    ensures |log| <= 2 * |Payloads(log)| + (if EndsInNotice(log) then 1 else 0)
  {
    if log != [] {
      NoticesBounded(log[..|log| - 1]);
    }
  }

  // ----- when a payload overtakes a notice -----

  /** The delivery puts a payload in the queue while losses are unannounced. */
  predicate Overtakes(d: Delivery) {
    d.enqueued != [] && d.enqueued[|d.enqueued| - 1].Payload? && d.sub.dropped > 0
  }

  /** Sent at once, a payload overtakes exactly the losses that are pending. */
  lemma SendOvertakes(sub: Subscriber, event: Event)
    ensures Overtakes(SendPayload(sub, event)) <==> sub.connected && |sub.queue| < MAX_QUEUE_DEPTH && sub.dropped > 0
  {
  }

  /** A notice in front makes no difference. */
  lemma NoticeInFront(count: nat, rest: Delivery)
    ensures Overtakes(rest.(enqueued := [Notice(count)] + rest.enqueued)) <==> Overtakes(rest)
  {
    var longer := [Notice(count)] + rest.enqueued;
    assert rest.enqueued != [] ==> longer[|longer| - 1] == rest.enqueued[|rest.enqueued| - 1];
    assert rest.enqueued == [] ==> longer[|longer| - 1] == Notice(count);
  }

  /** It does exactly when a notice was the last thing sent, more was lost since, and there is room again. */
  lemma OvertakesIff(sub: Subscriber, event: Event, between: Meanwhile)
    ensures Overtakes(Deliver(sub, event, between)) <==>
              Matches(sub, event) && sub.connected && |sub.queue| < MAX_QUEUE_DEPTH && sub.dropped > 0 && sub.preferPayload
  {
    var told := sub.(queue := sub.queue + [Notice(sub.dropped)], dropped := 0, preferPayload := true);
    var later := Take(told, between.taken).(connected := !between.hungUp);
    SendOvertakes(sub, event);
    SendOvertakes(later, event);
    NoticeInFront(sub.dropped, SendPayload(later, event));
  }

  function Repeat(action: Action, n: nat): seq<Action> {
    if n == 0 then [] else [action] + Repeat(action, n - 1)
  }

  lemma {:induction false} LiveAppend(life: Life, s: seq<Action>, t: seq<Action>)
    ensures Live(life, s + t) == Live(Live(life, s), t)
    decreases |s|
  {
    if s == [] {
      assert s + t == t;
    } else {
      assert (s + t)[1..] == s[1..] + t;
      LiveAppend(Next(life, s[0]), s[1..], t);
    }
  }

  /** Publishing without anyone reading fills the queue and loses nothing until it is full. */
  lemma {:induction false} Fill(life: Life, event: Event, n: nat)
    requires !life.gone && AsksFor(life.sub.sessionFilter, life.sub.typeFilter, event)
    requires life.sub.connected && life.sub.dropped == 0
    requires |life.sub.queue| + n <= MAX_QUEUE_DEPTH
    ensures var after := Live(life, Repeat(Publish(event, Meanwhile(0, false)), n));
            && !after.gone && after.sub == life.sub.(queue := after.sub.queue, preferPayload := after.sub.preferPayload)
            && |after.sub.queue| == |life.sub.queue| + n
            && (n > 0 || !life.sub.preferPayload ==> !after.sub.preferPayload)
    decreases n
  {
    if n > 0 {
      var p := Publish(event, Meanwhile(0, false));
      assert Repeat(p, n)[1..] == Repeat(p, n - 1);
      Fill(Next(life, p), event, n - 1);
    }
  }

  lemma RunOfFive(life: Life, a: Action, b: Action, c: Action, d: Action, e: Action)
    ensures Live(life, [a, b, c, d, e]) == Next(Next(Next(Next(Next(life, a), b), c), d), e)
  {
    var second := Next(Next(life, a), b);
    var fourth := Next(Next(second, c), d);
    assert [a, b, c, d, e] == [a, b] + ([c, d] + [e]);
    LiveAppend(life, [a, b], [c, d] + [e]);
    LiveAppend(second, [c, d], [e]);
    RunOfTwo(life, a, b);
    RunOfTwo(second, c, d);
    assert Live(Next(fourth, e), [e][1..]) == Next(fourth, e);
  }

  lemma RunOfTwo(life: Life, a: Action, b: Action)
    ensures Live(life, [a, b]) == Next(Next(life, a), b)
  {
    assert [a, b][1..] == [b];
    assert Live(Next(Next(life, a), b), [b][1..]) == Next(Next(life, a), b);
  }

  /** A full queue, a reader that takes one item at a time, and three more events. */
  lemma LateAfterFull(full: Life, event: Event)
    requires !full.gone && AsksFor(full.sub.sessionFilter, full.sub.typeFilter, event) && full.sub.connected
    requires |full.sub.queue| == MAX_QUEUE_DEPTH && full.sub.dropped == 0 && !full.sub.preferPayload && full.late == 0
    ensures var p := Publish(event, Meanwhile(0, false));
            Next(Next(Next(Next(Next(full, p), Receive(1)), p), Receive(1)), p).late == 1
  {
    var p := Publish(event, Meanwhile(0, false));
    PublishMoves(full, event, Meanwhile(0, false));
    var two := Next(Next(full, p), Receive(1));
    assert two.sub.dropped == 1;
    PublishMoves(two, event, Meanwhile(0, false));
    var four := Next(Next(two, p), Receive(1));
    assert four.sub.dropped == 1 && four.sub.preferPayload && four.late == 0;
    PublishMoves(four, event, Meanwhile(0, false));
  }

  /** It does happen: a slow reader that takes one item at a time gets a payload ahead of the notice of an older loss. */
  lemma OvertakingHappens(event: Event) returns (actions: seq<Action>)
    ensures Live(Fresh(1, None, None), actions).late == 1
  {
    var p := Publish(event, Meanwhile(0, false));
    var first := Repeat(p, MAX_QUEUE_DEPTH);
    Fill(Fresh(1, None, None), event, MAX_QUEUE_DEPTH);
    LossAccounting(1, None, None, first);
    var full := Live(Fresh(1, None, None), first);
    var tail := [p, Receive(1), p, Receive(1), p];
    LateAfterFull(full, event);
    RunOfFive(full, p, Receive(1), p, Receive(1), p);
    LiveAppend(Fresh(1, None, None), first, tail);
    actions := first + tail;
  }
}
