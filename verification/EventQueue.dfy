/**
 The analytics queue as a state machine: producers that drop facts when the channel is full,
 flush callers that wait for room and then for an acknowledgement, and one worker that feeds a
 stateful reducer and hands its output to delivery. Every interleaving is a sequence of actions.
 */
module EventQueue {
  import opened Wrappers
  import opened Orders
  import opened Batching

  const QUEUE_SIZE: nat := 256

  type FlushId = nat

  datatype Message<F> = Fact(fact: F) | Flush(id: FlushId)

  /** The reducer: any initial state and any two transition functions. */
  datatype Reducer<!S, !F> = Reducer(
    initial: S,
    ingest: (S, F) -> (S, seq<Event>),
    flush: S -> (S, seq<Event>))

  /** Where a flush call stands: waiting for room, holding a slot, queued, answered, given up. */
  datatype FlushStatus = Blocked | Granted | Queued | Acked | TimedOut

  datatype Worker<F> =
    | Waiting
    | Handling(msg: Message<F>)
    | Sending(msg: Message<F>, events: seq<Event>)
    | Acking(id: FlushId)
    | Stopped

  datatype Submission<F> = Submission(fact: F, taken: bool)

  datatype State<S, F> = State(
    channel: seq<Message<F>>,
    waiters: seq<FlushId>,
    granted: set<FlushId>,
    flushers: map<FlushId, FlushStatus>,
    worker: Worker<F>,
    reducer: S,
    closed: bool,
    // What has happened so far.
    lined: seq<FlushId>,
    served: seq<FlushId>,
    submitted: seq<Submission<F>>,
    dropped: nat,
    accepted: seq<Message<F>>,
    handed: seq<seq<Event>>,
    auths: seq<Auth>,
    wire: seq<Batch>)

  datatype Action<F> =
    | Submit(fact: F)
    | StartFlush(id: FlushId)
    | PushFlush(id: FlushId)
    | GiveUp(id: FlushId)
    | Close
    | Receive
    | Reduce
    | Deliver(auth: Auth, requests: seq<Batch>)
    | Acknowledge
    | Stop

  function Init<S, F>(r: Reducer<S, F>): State<S, F> {
    State([], [], {}, map[], Waiting, r.initial, false, [], [], [], 0, [], [], [], [])
  }

  // ----- The sequential reference -----

  function ReduceOne<S, F>(r: Reducer<S, F>, state: S, m: Message<F>): (S, seq<Event>) {
    match m
    case Fact(f) => r.ingest(state, f)
    case Flush(_) => r.flush(state)
  }

  /** The reducer's state after the messages. */
  function FinalState<S, F>(r: Reducer<S, F>, msgs: seq<Message<F>>): S {
    if msgs == [] then r.initial
    else ReduceOne(r, FinalState(r, msgs[..|msgs|-1]), msgs[|msgs|-1]).0
  }

  /** One event list per message. */
  function Outputs<S, F>(r: Reducer<S, F>, msgs: seq<Message<F>>): (out: seq<seq<Event>>)
    ensures |out| == |msgs|
  {
    if msgs == [] then []
    else
      var n := |msgs| - 1;
      Outputs(r, msgs[..n]) + [ReduceOne(r, FinalState(r, msgs[..n]), msgs[n]).1]
  }

  /** The events let through to the wire, list by list. */
  function AllDeliverable(auths: seq<Auth>, handed: seq<seq<Event>>): seq<Event>
    requires |auths| == |handed|
  {
    if handed == [] then []
    else
      var n := |handed| - 1;
      AllDeliverable(auths[..n], handed[..n]) + Deliverable(auths[n], handed[n])
  }

  function Facts<F>(msgs: seq<Message<F>>): seq<F> {
    if msgs == [] then []
    else Facts(msgs[..|msgs|-1]) + if msgs[|msgs|-1].Fact? then [msgs[|msgs|-1].fact] else []
  }

  function Taken<F>(subs: seq<Submission<F>>): seq<F> {
    if subs == [] then []
    else Taken(subs[..|subs|-1]) + if subs[|subs|-1].taken then [subs[|subs|-1].fact] else []
  }

  // ----- Steps -----

  /** A slot is free: it is neither filled nor promised to a waiting flush. */
  predicate HasRoom<S, F>(s: State<S, F>) {
    |s.channel| + |s.granted| < QUEUE_SIZE
  }

  function Enqueue<S, F>(s: State<S, F>, m: Message<F>): State<S, F> {
    s.(channel := s.channel + [m], accepted := s.accepted + [m])
  }

  /** A freed slot goes to the flush that has waited longest. */
  function Release<S, F>(s: State<S, F>): State<S, F> {
    if s.waiters == [] then s
    else s.(waiters := s.waiters[1..], granted := s.granted + {s.waiters[0]},
            flushers := s.flushers[s.waiters[0] := Granted], served := s.served + [s.waiters[0]])
  }

  function Without(ids: seq<FlushId>, id: FlushId): seq<FlushId> {
    Filter(ids, x => x != id)
  }

  predicate Pending(st: FlushStatus) {
    st.Blocked? || st.Granted? || st.Queued?
  }

  ghost predicate Enabled<S, F>(r: Reducer<S, F>, s: State<S, F>, a: Action<F>) {
    match a
    case Submit(_) => !s.closed
    case StartFlush(id) => !s.closed && id !in s.flushers
    case PushFlush(id) => id in s.granted
    case GiveUp(id) => id in s.flushers && Pending(s.flushers[id])
    case Close => !s.closed && forall id :: id in s.flushers ==> !Pending(s.flushers[id])
    case Receive => s.worker.Waiting? && s.channel != []
    case Reduce => s.worker.Handling?
    case Deliver(auth, requests) => s.worker.Sending? && GoodSplit(requests, Deliverable(auth, s.worker.events))
    case Acknowledge => s.worker.Acking?
    case Stop => s.worker.Waiting? && s.channel == [] && s.closed
  }

  function ApplySubmit<S, F>(s: State<S, F>, f: F): State<S, F> {
    if HasRoom(s) then Enqueue(s, Fact(f)).(submitted := s.submitted + [Submission(f, true)])
    else s.(submitted := s.submitted + [Submission(f, false)], dropped := s.dropped + 1)
  }

  function ApplyStartFlush<S, F>(s: State<S, F>, id: FlushId): State<S, F> {
    if HasRoom(s) then Enqueue(s, Flush(id)).(flushers := s.flushers[id := Queued])
    else s.(waiters := s.waiters + [id], flushers := s.flushers[id := Blocked], lined := s.lined + [id])
  }

  function ApplyPushFlush<S, F>(s: State<S, F>, id: FlushId): State<S, F> {
    Enqueue(s, Flush(id)).(granted := s.granted - {id}, flushers := s.flushers[id := Queued])
  }

  /** A flush that gives up leaves the line or returns its slot; a queued message stays queued. */
  function ApplyGiveUp<S, F>(s: State<S, F>, id: FlushId): State<S, F>
    requires id in s.flushers
  {
    var gone := s.(flushers := s.flushers[id := TimedOut]);
    match s.flushers[id]
    case Blocked => gone.(waiters := Without(s.waiters, id))
    case Granted => Release(gone.(granted := s.granted - {id}))
    case _ => gone
  }

  function ApplyReduce<S, F>(r: Reducer<S, F>, s: State<S, F>): State<S, F>
    requires s.worker.Handling?
  {
    var (state, events) := ReduceOne(r, s.reducer, s.worker.msg);
    s.(reducer := state, worker := Sending(s.worker.msg, events))
  }

  function ApplyDeliver<S, F>(s: State<S, F>, auth: Auth, requests: seq<Batch>): State<S, F>
    requires s.worker.Sending?
  {
    s.(handed := s.handed + [s.worker.events],
       auths := s.auths + [auth],
       wire := s.wire + requests,
       worker := if s.worker.msg.Flush? then Acking(s.worker.msg.id) else Waiting)
  }

  /** The acknowledgement reaches the caller only if it is still waiting. */
  function ApplyAcknowledge<S, F>(s: State<S, F>): State<S, F>
    requires s.worker.Acking?
  {
    var id := s.worker.id;
    s.(worker := Waiting,
       flushers := if id in s.flushers && s.flushers[id].Queued? then s.flushers[id := Acked] else s.flushers)
  }

  ghost function Apply<S, F>(r: Reducer<S, F>, s: State<S, F>, a: Action<F>): State<S, F>
    requires Enabled(r, s, a)
  {
    match a
    case Submit(f) => ApplySubmit(s, f)
    case StartFlush(id) => ApplyStartFlush(s, id)
    case PushFlush(id) => ApplyPushFlush(s, id)
    case GiveUp(id) => ApplyGiveUp(s, id)
    case Close => s.(closed := true)
    case Receive => Release(s.(channel := s.channel[1..], worker := Handling(s.channel[0])))
    case Reduce => ApplyReduce(r, s)
    case Deliver(auth, requests) => ApplyDeliver(s, auth, requests)
    case Acknowledge => ApplyAcknowledge(s)
    case Stop => s.(worker := Stopped)
  }

  /** A run in which every action is possible when it happens. */
  ghost predicate Legal<S, F>(r: Reducer<S, F>, run: seq<Action<F>>)
    decreases |run|, 0
  {
    run == [] || (Legal(r, run[..|run|-1]) && Enabled(r, After(r, run[..|run|-1]), run[|run|-1]))
  }

  ghost function After<S, F>(r: Reducer<S, F>, run: seq<Action<F>>): State<S, F>
    requires Legal(r, run)
    decreases |run|, 1
  {
    if run == [] then Init(r) else Apply(r, After(r, run[..|run|-1]), run[|run|-1])
  }

  // ----- What every step keeps -----

  /** The message the worker has taken but not yet handed over. */
  function InFlight<F>(w: Worker<F>): seq<Message<F>> {
    if w.Handling? || w.Sending? then [w.msg] else []
  }

  function Processed<S, F>(s: State<S, F>): seq<Message<F>>
    requires |s.handed| <= |s.accepted|
  {
    s.accepted[..|s.handed|]
  }

  /** Accepted messages are processed, in flight or queued, in order, and the output so far is
      that of a sequential run. */
  ghost predicate Flow<S, F>(r: Reducer<S, F>, s: State<S, F>) {
    && |s.handed| <= |s.accepted|
    && s.accepted[|s.handed|..] == InFlight(s.worker) + s.channel
    && s.handed == Outputs(r, Processed(s))
    && (if s.worker.Sending?
        then (s.reducer, s.worker.events) == ReduceOne(r, FinalState(r, Processed(s)), s.worker.msg)
        else s.reducer == FinalState(r, Processed(s)))
  }

  /** Slots are never over-promised, and none stays free while a flush waits. */
  ghost predicate Slots<S, F>(s: State<S, F>) {
    && |s.channel| + |s.granted| <= QUEUE_SIZE
    && (s.waiters != [] ==> |s.channel| + |s.granted| == QUEUE_SIZE)
  }

  /** Waiting lines and flush statuses agree. */
  ghost predicate Lines<S, F>(s: State<S, F>) {
    && Distinct(s.waiters)
    && (forall id :: id in s.waiters <==> id in s.flushers && s.flushers[id].Blocked?)
    && (forall id :: id in s.granted <==> id in s.flushers && s.flushers[id].Granted?)
    && (s.closed ==> forall id :: id in s.flushers ==> !Pending(s.flushers[id]))
    && (s.worker.Stopped? ==> s.closed && s.channel == [])
  }

  /** Slots are given in the order in which flushes joined the line. */
  ghost predicate Fair<S, F>(s: State<S, F>) {
    && Subsequence(s.served + s.waiters, s.lined)
    && Distinct(s.lined)
    && forall id :: id in s.lined ==> id in s.flushers
  }

  /** A flush has been handed over up to and including its own position. */
  ghost predicate HandedOver<S, F>(s: State<S, F>, id: FlushId) {
    exists i: nat :: i < |s.handed| && i < |s.accepted| && s.accepted[i] == Flush(id)
  }

  /** A queued flush is still ahead of the worker's acknowledgement; an answered one is behind it. */
  ghost predicate Barriers<S, F>(s: State<S, F>) {
    && |s.handed| <= |s.accepted|
    && (forall i, j :: 0 <= i < j < |s.accepted| && s.accepted[i].Flush? ==> s.accepted[i] != s.accepted[j])
    && (forall i :: 0 <= i < |s.accepted| && s.accepted[i].Flush? ==>
          s.accepted[i].id in s.flushers && !s.flushers[s.accepted[i].id].Blocked? && !s.flushers[s.accepted[i].id].Granted?)
    && (forall id :: id in s.flushers && s.flushers[id].Acked? ==> HandedOver(s, id))
    && (forall id :: id in s.flushers && s.flushers[id].Queued? ==>
          Flush(id) in s.accepted[|s.handed|..] || s.worker == Acking(id))
    && (s.worker.Acking? ==> |s.handed| > 0 && s.accepted[|s.handed|-1] == Flush(s.worker.id))
    && (s.worker.Acking? ==> s.worker.id in s.flushers && !s.flushers[s.worker.id].Acked?)
  }

  /** Every submitted fact was accepted or counted as dropped. */
  ghost predicate Counted<S, F>(s: State<S, F>) {
    && Facts(s.accepted) == Taken(s.submitted)
    && |s.submitted| == |Facts(s.accepted)| + s.dropped
  }

  /** The wire carries exactly the deliverable events of what was handed over. */
  ghost predicate OnTheWire<S, F>(s: State<S, F>) {
    |s.auths| == |s.handed| && Flatten(s.wire) == AllDeliverable(s.auths, s.handed)
  }

  lemma FlowStep<S, F>(r: Reducer<S, F>, s: State<S, F>, a: Action<F>)
    requires Enabled(r, s, a) && Flow(r, s)
    ensures Flow(r, Apply(r, s, a))
  {
    match a {
      case Submit(f) =>
        if HasRoom(s) { EnqueueFlow(r, s, ApplySubmit(s, f), Fact(f)); }
      case StartFlush(id) =>
        if HasRoom(s) { EnqueueFlow(r, s, ApplyStartFlush(s, id), Flush(id)); }
      case PushFlush(id) => EnqueueFlow(r, s, ApplyPushFlush(s, id), Flush(id));
      case Receive => ReceiveFlow(r, s);
      case Deliver(auth, requests) => DeliverFlow(r, s, auth, requests);
      case GiveUp(id) =>
        GiveUpLeaves(s, id);
        QuietFlow(r, s, ApplyGiveUp(s, id));
      case _ =>
    }
  }

  /** Giving up touches only the lines and the statuses. */
  lemma GiveUpLeaves<S, F>(s: State<S, F>, id: FlushId)
    requires id in s.flushers
    ensures var t := ApplyGiveUp(s, id);
            && t.channel == s.channel && t.worker == s.worker && t.reducer == s.reducer && t.accepted == s.accepted
            && t.handed == s.handed && t.auths == s.auths && t.wire == s.wire && t.submitted == s.submitted
  {
  }

  lemma QuietFlow<S, F>(r: Reducer<S, F>, s: State<S, F>, t: State<S, F>)
    requires Flow(r, s)
    requires t.channel == s.channel && t.worker == s.worker && t.reducer == s.reducer
    requires t.accepted == s.accepted && t.handed == s.handed
    ensures Flow(r, t)
  {
    assert Processed(t) == Processed(s);
  }

  lemma ReceiveFlow<S, F>(r: Reducer<S, F>, s: State<S, F>)
    requires Flow(r, s) && s.worker.Waiting? && s.channel != []
    ensures Flow(r, Release(s.(channel := s.channel[1..], worker := Handling(s.channel[0]))))
  {
    assert s.channel == [s.channel[0]] + s.channel[1..];
  }

  lemma DeliverFlow<S, F>(r: Reducer<S, F>, s: State<S, F>, auth: Auth, requests: seq<Batch>)
    requires Flow(r, s) && s.worker.Sending?
    ensures Flow(r, ApplyDeliver(s, auth, requests))
  {
    var n := |s.handed|;
    assert s.accepted[n] == s.accepted[n..][0] == s.worker.msg;
    assert s.accepted[..n+1][..n] == s.accepted[..n];
    assert s.accepted[n+1..] == s.accepted[n..][1..] == s.channel;
  }

  lemma EnqueueFlow<S, F>(r: Reducer<S, F>, s: State<S, F>, t: State<S, F>, m: Message<F>)
    requires Flow(r, s)
    requires t.channel == s.channel + [m] && t.accepted == s.accepted + [m]
    requires t.worker == s.worker && t.reducer == s.reducer && t.handed == s.handed
    ensures Flow(r, t)
  {
    var n := |s.handed|;
    assert t.accepted[..n] == s.accepted[..n];
    assert t.accepted[n..] == s.accepted[n..] + [m];
    Assoc(InFlight(s.worker), s.channel, [m]);
  }

  lemma StartFlushLines<S, F>(s: State<S, F>, id: FlushId)
    requires Lines(s) && Slots(s) && !s.closed && id !in s.flushers
    ensures Lines(ApplyStartFlush(s, id)) && Slots(ApplyStartFlush(s, id))
  {
    assert id !in s.waiters && id !in s.granted;
  }

  lemma PushFlushLines<S, F>(s: State<S, F>, id: FlushId)
    requires Lines(s) && Slots(s) && id in s.granted
    ensures Lines(ApplyPushFlush(s, id)) && Slots(ApplyPushFlush(s, id))
  {
    assert id in s.flushers && s.flushers[id].Granted? && id !in s.waiters;
  }

  lemma GiveUpLines<S, F>(s: State<S, F>, id: FlushId)
    requires Lines(s) && Slots(s) && id in s.flushers && Pending(s.flushers[id])
    ensures Lines(ApplyGiveUp(s, id)) && Slots(ApplyGiveUp(s, id))
  {
    if s.flushers[id].Blocked? {
      DistinctFilter(s.waiters, x => x != id);
      assert Without(s.waiters, id) != [] ==> Without(s.waiters, id)[0] in s.waiters;
    } else if s.flushers[id].Granted? {
      assert id in s.granted && id !in s.waiters;
      ReleaseLines(s.(flushers := s.flushers[id := TimedOut], granted := s.granted - {id}));
    }
  }

  lemma LinesStep<S, F>(r: Reducer<S, F>, s: State<S, F>, a: Action<F>)
    requires Enabled(r, s, a) && Lines(s) && Slots(s)
    ensures Lines(Apply(r, s, a)) && Slots(Apply(r, s, a))
  {
    match a {
      case StartFlush(id) => StartFlushLines(s, id);
      case PushFlush(id) => PushFlushLines(s, id);
      case GiveUp(id) => GiveUpLines(s, id);
      case Receive => ReleaseLines(s.(channel := s.channel[1..], worker := Handling(s.channel[0])));
      case _ =>
    }
  }

  /** Handing a freed slot on keeps the lines in order. */
  lemma ReleaseLines<S, F>(s: State<S, F>)
    requires Lines(s)
    requires |s.channel| + |s.granted| < QUEUE_SIZE
    requires s.waiters != [] ==> |s.channel| + |s.granted| == QUEUE_SIZE - 1
    ensures Lines(Release(s)) && Slots(Release(s))
  {
    if s.waiters != [] {
      var id := s.waiters[0];
      assert id in s.waiters && id !in s.granted;
      assert s.waiters == [id] + s.waiters[1..];
      assert id !in s.waiters[1..];
    }
  }

  lemma {:induction false} DistinctFilter<T(!new)>(s: seq<T>, keep: T -> bool)
    requires Distinct(s)
    ensures Distinct(Filter(s, keep))
  {
    if s != [] {
      DistinctFilter(s[1..], keep);
      assert s[0] !in s[1..];
    }
  }

  lemma FairStep<S, F>(r: Reducer<S, F>, s: State<S, F>, a: Action<F>)
    requires Enabled(r, s, a) && Fair(s)
    ensures Fair(Apply(r, s, a))
  {
    match a {
      case StartFlush(id) => StartFlushFair(s, id);
      case GiveUp(id) => GiveUpFair(s, id);
      case Receive => ReleaseFair(s.(channel := s.channel[1..], worker := Handling(s.channel[0])));
      case _ =>
    }
  }

  lemma StartFlushFair<S, F>(s: State<S, F>, id: FlushId)
    requires Fair(s) && id !in s.flushers
    ensures Fair(ApplyStartFlush(s, id))
  {
    SubsequenceSnoc(s.served + s.waiters, s.lined, id);
    Assoc(s.served, s.waiters, [id]);
  }

  lemma ReleaseFair<S, F>(s: State<S, F>)
    requires Fair(s)
    ensures Fair(Release(s))
  {
    if s.waiters != [] {
      assert s.served + [s.waiters[0]] + s.waiters[1..] == s.served + s.waiters;
    }
  }

  lemma GiveUpFair<S, F>(s: State<S, F>, id: FlushId)
    requires Fair(s) && id in s.flushers
    ensures Fair(ApplyGiveUp(s, id))
  {
    match s.flushers[id] {
      case Blocked =>
        FilterIsSubsequence(s.waiters, x => x != id);
        SubsequencePrepend(s.served, Without(s.waiters, id), s.waiters);
        SubsequenceTransitive(s.served + Without(s.waiters, id), s.served + s.waiters, s.lined);
      case Granted =>
        ReleaseFair(s.(flushers := s.flushers[id := TimedOut], granted := s.granted - {id}));
      case _ =>
    }
  }

  lemma CountedStep<S, F>(r: Reducer<S, F>, s: State<S, F>, a: Action<F>)
    requires Enabled(r, s, a) && Counted(s)
    ensures Counted(Apply(r, s, a))
  {
    match a {
      case Submit(f) =>
        FactsSnoc(s.accepted, Fact(f));
        TakenSnoc(s.submitted, Submission(f, HasRoom(s)));
      case StartFlush(id) => FactsSnoc(s.accepted, Flush(id));
      case PushFlush(id) => FactsSnoc(s.accepted, Flush(id));
      case _ =>
    }
  }

  lemma FactsSnoc<F>(msgs: seq<Message<F>>, m: Message<F>)
    ensures Facts(msgs + [m]) == if m.Fact? then Facts(msgs) + [m.fact] else Facts(msgs)
  {
    assert (msgs + [m])[..|msgs|] == msgs;
  }

  lemma TakenSnoc<F>(subs: seq<Submission<F>>, m: Submission<F>)
    ensures Taken(subs + [m]) == if m.taken then Taken(subs) + [m.fact] else Taken(subs)
  {
    assert (subs + [m])[..|subs|] == subs;
  }

  lemma {:induction false} FlattenConcat(a: seq<Batch>, b: seq<Batch>)
    ensures Flatten(a + b) == Flatten(a) + Flatten(b)
  {
    if a == [] {
      assert a + b == b;
    } else {
      FlattenConcat(a[1..], b);
      assert (a + b)[1..] == a[1..] + b;
      Assoc(a[0], Flatten(a[1..]), Flatten(b));
    }
  }

  lemma DeliverableSnoc(auths: seq<Auth>, handed: seq<seq<Event>>, auth: Auth, events: seq<Event>)
    requires |auths| == |handed|
    ensures AllDeliverable(auths + [auth], handed + [events]) == AllDeliverable(auths, handed) + Deliverable(auth, events)
  {
    var n := |handed|;
    assert (handed + [events])[..n] == handed && (auths + [auth])[..n] == auths;
  }

  lemma WireStep<S, F>(r: Reducer<S, F>, s: State<S, F>, a: Action<F>)
    requires Enabled(r, s, a) && OnTheWire(s)
    ensures OnTheWire(Apply(r, s, a))
  {
    match a {
      case Deliver(auth, requests) => DeliverWire(s, auth, requests);
      case GiveUp(id) =>
        GiveUpLeaves(s, id);
        QuietWire(s, ApplyGiveUp(s, id));
      case _ =>
    }
  }

  lemma DeliverWire<S, F>(s: State<S, F>, auth: Auth, requests: seq<Batch>)
    requires OnTheWire(s) && s.worker.Sending? && GoodSplit(requests, Deliverable(auth, s.worker.events))
    ensures OnTheWire(ApplyDeliver(s, auth, requests))
  {
    FlattenConcat(s.wire, requests);
    DeliverableSnoc(s.auths, s.handed, auth, s.worker.events);
  }

  lemma QuietWire<S, F>(s: State<S, F>, t: State<S, F>)
    requires OnTheWire(s) && t.wire == s.wire && t.auths == s.auths && t.handed == s.handed
    ensures OnTheWire(t)
  {
  }

  lemma StaysHandedOver<S, F>(s: State<S, F>, t: State<S, F>, id: FlushId)
    requires HandedOver(s, id) && s.accepted <= t.accepted && |s.handed| <= |t.handed|
    ensures HandedOver(t, id)
  {
    var i: nat :| i < |s.handed| && i < |s.accepted| && s.accepted[i] == Flush(id);
    assert t.accepted[i] == Flush(id);
  }

  /** Adding a flush that is not yet in the log. */
  lemma EnqueueBarriers<S, F>(s: State<S, F>, t: State<S, F>, m: Message<F>)
    requires Barriers(s)
    requires t.accepted == s.accepted + [m] && t.handed == s.handed && t.worker == s.worker
    requires m.Fact? ==> t.flushers == s.flushers
    requires m.Flush? ==> t.flushers == s.flushers[m.id := Queued]
    requires m.Flush? ==> m.id !in s.flushers || s.flushers[m.id].Granted?
    ensures Barriers(t)
  {
    var n := |s.handed|;
    assert t.accepted[n..] == s.accepted[n..] + [m];
    forall id | id in t.flushers && t.flushers[id].Acked? ensures HandedOver(t, id) {
      StaysHandedOver(s, t, id);
    }
  }

  lemma DeliverBarriers<S, F>(r: Reducer<S, F>, s: State<S, F>, auth: Auth, requests: seq<Batch>)
    requires s.worker.Sending? && Flow(r, s) && Barriers(s)
    ensures Barriers(ApplyDeliver(s, auth, requests))
  {
    var t := ApplyDeliver(s, auth, requests);
    var n := |s.handed|;
    assert s.accepted[n..] == [s.worker.msg] + s.channel;
    assert s.accepted[n] == s.accepted[n..][0] == s.worker.msg;
    assert s.accepted[n..] == [s.accepted[n]] + s.accepted[n+1..];
    forall id | id in t.flushers && t.flushers[id].Acked? ensures HandedOver(t, id) {
      StaysHandedOver(s, t, id);
    }
  }

  /** Steps that leave the log alone and change statuses only towards giving up or the line. */
  lemma StatusBarriers<S, F>(s: State<S, F>, t: State<S, F>)
    requires Barriers(s)
    requires t.accepted == s.accepted && t.handed == s.handed
    requires t.worker == s.worker || (!s.worker.Acking? && !t.worker.Acking?)
    requires forall id :: id in s.flushers ==> id in t.flushers
    requires forall id :: id in t.flushers && t.flushers[id].Acked? ==> id in s.flushers && s.flushers[id].Acked?
    requires forall id :: id in t.flushers && t.flushers[id].Queued? ==> id in s.flushers && s.flushers[id].Queued?
    requires forall id :: id in t.flushers && (t.flushers[id].Blocked? || t.flushers[id].Granted?) ==>
               id !in s.flushers || s.flushers[id].Blocked? || s.flushers[id].Granted?
    ensures Barriers(t)
  {
    forall id | id in t.flushers && t.flushers[id].Acked? ensures HandedOver(t, id) {
      StaysHandedOver(s, t, id);
    }
  }

  lemma AcknowledgeBarriers<S, F>(s: State<S, F>)
    requires s.worker.Acking? && Barriers(s)
    ensures Barriers(ApplyAcknowledge(s))
  {
    var t := ApplyAcknowledge(s);
    forall id | id in t.flushers && t.flushers[id].Acked? ensures HandedOver(t, id) {
      if id == s.worker.id {
        assert t.accepted[|s.handed|-1] == Flush(id);
      } else {
        StaysHandedOver(s, t, id);
      }
    }
  }

  lemma ReleaseBarriers<S, F>(s: State<S, F>, t: State<S, F>)
    requires Lines(s) && Barriers(s) && t.waiters == s.waiters && t.flushers == s.flushers
    requires t.accepted == s.accepted && t.handed == s.handed
    requires t.worker == s.worker || (!s.worker.Acking? && !t.worker.Acking?)
    ensures Barriers(Release(t))
  {
    assert s.waiters != [] ==> s.waiters[0] in s.waiters;
    StatusBarriers(s, Release(t));
  }

  lemma GiveUpBarriers<S, F>(s: State<S, F>, id: FlushId)
    requires Lines(s) && Barriers(s) && id in s.flushers && Pending(s.flushers[id])
    ensures Barriers(ApplyGiveUp(s, id))
  {
    var gone := s.(flushers := s.flushers[id := TimedOut]);
    match s.flushers[id] {
      case Blocked => StatusBarriers(s, gone.(waiters := Without(s.waiters, id)));
      case Granted => ReturnBarriers(s, id);
      case _ => StatusBarriers(s, gone);
    }
  }

  /** Giving up while holding a slot. */
  lemma ReturnBarriers<S, F>(s: State<S, F>, id: FlushId)
    requires Lines(s) && Barriers(s) && id in s.flushers && s.flushers[id].Granted?
    ensures Barriers(Release(s.(flushers := s.flushers[id := TimedOut], granted := s.granted - {id})))
  {
    var free := s.(flushers := s.flushers[id := TimedOut], granted := s.granted - {id});
    StatusBarriers(s, free);
    if s.waiters != [] {
      assert s.waiters[0] in s.waiters;
      GrantBarriers(free, Release(free), s.waiters[0]);
    }
  }

  lemma GrantBarriers<S, F>(s: State<S, F>, t: State<S, F>, id: FlushId)
    requires Barriers(s) && id in s.flushers && s.flushers[id].Blocked?
    requires t.accepted == s.accepted && t.handed == s.handed && t.worker == s.worker
    requires t.flushers == s.flushers[id := Granted]
    ensures Barriers(t)
  {
    StatusBarriers(s, t);
  }

  lemma SubmitBarriers<S, F>(s: State<S, F>, f: F)
    requires Barriers(s)
    ensures Barriers(ApplySubmit(s, f))
  {
    if HasRoom(s) {
      EnqueueBarriers(s, ApplySubmit(s, f), Fact(f));
    } else {
      StatusBarriers(s, ApplySubmit(s, f));
    }
  }

  lemma StartFlushBarriers<S, F>(s: State<S, F>, id: FlushId)
    requires Barriers(s) && id !in s.flushers
    ensures Barriers(ApplyStartFlush(s, id))
  {
    if HasRoom(s) {
      EnqueueBarriers(s, ApplyStartFlush(s, id), Flush(id));
    } else {
      StatusBarriers(s, ApplyStartFlush(s, id));
    }
  }

  lemma BarriersStep<S, F>(r: Reducer<S, F>, s: State<S, F>, a: Action<F>)
    requires Enabled(r, s, a) && Flow(r, s) && Lines(s) && Barriers(s)
    ensures Barriers(Apply(r, s, a))
  {
    match a {
      case Submit(f) => SubmitBarriers(s, f);
      case StartFlush(id) => StartFlushBarriers(s, id);
      case PushFlush(id) => EnqueueBarriers(s, ApplyPushFlush(s, id), Flush(id));
      case GiveUp(id) => GiveUpBarriers(s, id);
      case Close => StatusBarriers(s, s.(closed := true));
      case Receive => ReleaseBarriers(s, s.(channel := s.channel[1..], worker := Handling(s.channel[0])));
      case Reduce => StatusBarriers(s, ApplyReduce(r, s));
      case Deliver(auth, requests) => DeliverBarriers(r, s, auth, requests);
      case Acknowledge => AcknowledgeBarriers(s);
      case Stop => StatusBarriers(s, s.(worker := Stopped));
    }
  }

  /** Everything above, in every state of every run. */
  lemma {:induction false} Invariant<S, F>(r: Reducer<S, F>, run: seq<Action<F>>)
    requires Legal(r, run)
    ensures var s := After(r, run);
            Flow(r, s) && Slots(s) && Lines(s) && Fair(s) && Barriers(s) && Counted(s) && OnTheWire(s)
  {
    if run != [] {
      var before, a := run[..|run|-1], run[|run|-1];
      Invariant(r, before);
      var s := After(r, before);
      FlowStep(r, s, a);
      LinesStep(r, s, a);
      FairStep(r, s, a);
      BarriersStep(r, s, a);
      CountedStep(r, s, a);
      WireStep(r, s, a);
    }
  }

  // ----- What holds over whole runs -----

  lemma {:induction false} OutputsPrefix<S, F>(r: Reducer<S, F>, msgs: seq<Message<F>>, k: nat)
    requires k <= |msgs|
    ensures Outputs(r, msgs[..k]) == Outputs(r, msgs)[..k]
  {
    if k == |msgs| {
      assert msgs[..k] == msgs;
    } else {
      var n := |msgs| - 1;
      OutputsPrefix(r, msgs[..n], k);
      assert msgs[..n][..k] == msgs[..k];
    }
  }

  lemma FlowMeans<S, F>(r: Reducer<S, F>, s: State<S, F>)
    requires Flow(r, s)
    ensures s.handed <= Outputs(r, s.accepted)
    ensures s.accepted == s.accepted[..|s.handed|] + InFlight(s.worker) + s.channel
  {
    OutputsPrefix(r, s.accepted, |s.handed|);
    assert s.accepted == s.accepted[..|s.handed|] + s.accepted[|s.handed|..];
    Assoc(s.accepted[..|s.handed|], InFlight(s.worker), s.channel);
  }

  /**
   On every interleaving, delivery receives exactly the outputs of a sequential reducer run over
   the accepted messages in channel order, as far as the worker has come; nothing accepted is
   lost, and the backlog stays within the channel size.
   */
  lemma {:induction false} SequentialDelivery<S, F>(r: Reducer<S, F>, run: seq<Action<F>>)
    requires Legal(r, run)
    ensures var s := After(r, run);
            && |s.channel| <= 256
            && s.handed <= Outputs(r, s.accepted)
            && s.accepted == s.accepted[..|s.handed|] + InFlight(s.worker) + s.channel
            && |s.auths| == |s.handed|
            && Flatten(s.wire) == AllDeliverable(s.auths, s.handed)
  {
    Invariant(r, run);
    FlowMeans(r, After(r, run));
  }

  /** The reducer passes through these states, one message after the other, and hands out these
      events on the way: each message is applied to the state the one before it left. */
  ghost predicate PassesThrough<S, F>(r: Reducer<S, F>, msgs: seq<Message<F>>, states: seq<S>, handed: seq<seq<Event>>) {
    && |states| == |handed| + 1 && |handed| <= |msgs|
    && states[0] == r.initial
    && forall i :: 0 <= i < |handed| ==>
         (states[i+1], handed[i]) ==
         if msgs[i].Fact? then r.ingest(states[i], msgs[i].fact) else r.flush(states[i])
  }

  lemma {:induction false} OutputStates<S, F>(r: Reducer<S, F>, msgs: seq<Message<F>>) returns (states: seq<S>)
    ensures PassesThrough(r, msgs, states, Outputs(r, msgs)) && states[|msgs|] == FinalState(r, msgs)
  {
    if msgs == [] {
      states := [r.initial];
    } else {
      var n := |msgs| - 1;
      var before := OutputStates(r, msgs[..n]);
      states := before + [FinalState(r, msgs)];
      var out := Outputs(r, msgs);
      assert out[n] == ReduceOne(r, before[n], msgs[n]).1;
      forall i | 0 <= i < |msgs|
        ensures (states[i+1], out[i]) == if msgs[i].Fact? then r.ingest(states[i], msgs[i].fact) else r.flush(states[i])
      {
        if i < n {
          assert out[i] == Outputs(r, msgs[..n])[i] && msgs[i] == msgs[..n][i];
        }
      }
    }
  }

  lemma StatesOfPrefix<S, F>(r: Reducer<S, F>, msgs: seq<Message<F>>, k: nat, states: seq<S>, handed: seq<seq<Event>>)
    requires k <= |msgs| && PassesThrough(r, msgs[..k], states, handed)
    ensures PassesThrough(r, msgs, states, handed)
  {
    assert forall i :: 0 <= i < |handed| ==> msgs[..k][i] == msgs[i];
  }

  /** These parts went out for the lists handed over, each under the credential of its delivery. */
  ghost predicate SentAs(auths: seq<Auth>, handed: seq<seq<Event>>, parts: seq<seq<Event>>) {
    && |parts| == |handed| == |auths|
    && forall i :: 0 <= i < |parts| ==> LetThrough(auths[i], handed[i], parts[i])
  }

  lemma {:induction false} DeliverableParts(auths: seq<Auth>, handed: seq<seq<Event>>) returns (parts: seq<seq<Event>>)
    requires |auths| == |handed|
    ensures SentAs(auths, handed, parts) && Flatten(parts) == AllDeliverable(auths, handed)
  {
    if handed == [] {
      parts := [];
    } else {
      var n := |handed| - 1;
      var before := DeliverableParts(auths[..n], handed[..n]);
      var last := Deliverable(auths[n], handed[n]);
      DeliverableIs(auths[n], handed[n]);
      SentSnoc(auths[..n], handed[..n], before, auths[n], handed[n], last);
      assert auths == auths[..n] + [auths[n]] && handed == handed[..n] + [handed[n]];
      parts := before + [last];
      FlattenSnoc(before, last);
    }
  }

  lemma SentSnoc(auths: seq<Auth>, handed: seq<seq<Event>>, parts: seq<seq<Event>>, auth: Auth, events: seq<Event>, sent: seq<Event>)
    requires SentAs(auths, handed, parts) && LetThrough(auth, events, sent)
    ensures SentAs(auths + [auth], handed + [events], parts + [sent])
  {
  }

  /**
   What delivery means, without the sequential reference: on every interleaving one reducer has
   passed from its initial state through every accepted message in turn, and the wire carries,
   delivery by delivery, what the credential in force lets through.
   */
  lemma {:induction false} OneReducer<S, F>(r: Reducer<S, F>, run: seq<Action<F>>)
    returns (states: seq<S>, parts: seq<seq<Event>>)
    requires Legal(r, run)
    ensures var s := After(r, run);
            && PassesThrough(r, s.accepted, states, s.handed)
            && SentAs(s.auths, s.handed, parts) && Flatten(s.wire) == Flatten(parts)
  {
    Invariant(r, run);
    var s := After(r, run);
    states := OutputStates(r, Processed(s));
    StatesOfPrefix(r, s.accepted, |s.handed|, states, s.handed);
    parts := DeliverableParts(s.auths, s.handed);
  }

  /** The facts the run submits, in order. */
  function Submits<F>(run: seq<Action<F>>): seq<F> {
    if run == [] then []
    else Submits(run[..|run|-1]) + if run[|run|-1].Submit? then [run[|run|-1].fact] else []
  }

  ghost predicate RecordsSubmits<S, F>(s: State<S, F>, facts: seq<F>) {
    |s.submitted| == |facts| && forall i :: 0 <= i < |facts| ==> s.submitted[i].fact == facts[i]
  }

  lemma SubmitsStep<S, F>(r: Reducer<S, F>, s: State<S, F>, a: Action<F>, facts: seq<F>)
    requires Enabled(r, s, a) && RecordsSubmits(s, facts)
    ensures RecordsSubmits(Apply(r, s, a), if a.Submit? then facts + [a.fact] else facts)
  {
    match a {
      case GiveUp(id) => GiveUpLeaves(s, id);
      case _ =>
    }
  }

  lemma {:induction false} SubmitsRecorded<S, F>(r: Reducer<S, F>, run: seq<Action<F>>)
    requires Legal(r, run)
    ensures RecordsSubmits(After(r, run), Submits(run))
  {
    if run != [] {
      var before, a := run[..|run|-1], run[|run|-1];
      SubmitsRecorded(r, before);
      SubmitsStep(r, After(r, before), a, Submits(before));
    }
  }

  /** Every submitted fact was either accepted, in submission order, or counted as dropped. */
  lemma {:induction false} FactsConserved<S, F>(r: Reducer<S, F>, run: seq<Action<F>>)
    requires Legal(r, run)
    ensures var s := After(r, run);
            && |s.submitted| == |Facts(s.accepted)| + s.dropped && Facts(s.accepted) == Taken(s.submitted)
            && |s.submitted| == |Submits(run)|
            && forall i :: 0 <= i < |s.submitted| ==> s.submitted[i].fact == Submits(run)[i]
  {
    Invariant(r, run);
    SubmitsRecorded(r, run);
  }

  /** A fact is dropped exactly when all 256 slots are filled or promised to waiting flushes. */
  lemma {:induction false} DropsWhenFull<S, F>(r: Reducer<S, F>, run: seq<Action<F>>, f: F)
    requires Legal(r, run) && !After(r, run).closed
    ensures var s := After(r, run); var t := Apply(r, s, Submit(f));
            && (t.dropped == s.dropped + 1 <==> |s.channel| + |s.granted| == 256)
            && (t.accepted == s.accepted + [Fact(f)] <==> |s.channel| + |s.granted| < 256)
  {
    Invariant(r, run);
  }

  /** Waiting flushes get their slots in the order in which they called, whoever gives up meanwhile. */
  lemma {:induction false} FirstComeFirstServed<S, F>(r: Reducer<S, F>, run: seq<Action<F>>)
    requires Legal(r, run)
    ensures var s := After(r, run); Subsequence(s.served + s.waiters, s.lined) && Distinct(s.lined)
  {
    Invariant(r, run);
  }

  lemma {:induction false} LegalPrefix<S, F>(r: Reducer<S, F>, run: seq<Action<F>>, k: nat)
    requires Legal(r, run) && k <= |run|
    ensures Legal(r, run[..k])
  {
    if k == |run| {
      assert run[..k] == run;
    } else {
      var n := |run| - 1;
      LegalPrefix(r, run[..n], k);
      assert run[..n][..k] == run[..k];
    }
  }

  /** The histories of `t` continue those of `s`, and answers and give-ups stand. */
  ghost predicate Continues<S, F>(s: State<S, F>, t: State<S, F>) {
    && s.accepted <= t.accepted && s.handed <= t.handed && s.wire <= t.wire && s.submitted <= t.submitted
    && forall id :: id in s.flushers ==> id in t.flushers && (!Pending(s.flushers[id]) ==> t.flushers[id] == s.flushers[id])
  }

  lemma ContinuesStep<S, F>(r: Reducer<S, F>, s: State<S, F>, a: Action<F>)
    requires Enabled(r, s, a) && Lines(s)
    ensures Continues(s, Apply(r, s, a))
  {
    match a {
      case GiveUp(id) => GiveUpContinues(s, id);
      case Receive => ReleaseContinues(s, s.(channel := s.channel[1..], worker := Handling(s.channel[0])));
      case _ =>
    }
  }

  lemma GiveUpContinues<S, F>(s: State<S, F>, id: FlushId)
    requires Lines(s) && id in s.flushers && Pending(s.flushers[id])
    ensures Continues(s, ApplyGiveUp(s, id))
  {
    GiveUpLeaves(s, id);
    assert s.waiters != [] ==> s.waiters[0] in s.waiters;
  }

  lemma ReleaseContinues<S, F>(s: State<S, F>, t: State<S, F>)
    requires Lines(s) && t.waiters == s.waiters && t.flushers == s.flushers
    requires t.accepted == s.accepted && t.handed == s.handed && t.wire == s.wire && t.submitted == s.submitted
    ensures Continues(s, Release(t))
  {
    assert s.waiters != [] ==> s.waiters[0] in s.waiters;
  }

  lemma ContinuesTransitive<S, F>(s: State<S, F>, t: State<S, F>, u: State<S, F>)
    requires Continues(s, t) && Continues(t, u)
    ensures Continues(s, u)
  {
  }

  lemma ContinuesLast<S, F>(r: Reducer<S, F>, run: seq<Action<F>>)
    requires Legal(r, run) && run != []
    ensures Legal(r, run[..|run|-1]) && Continues(After(r, run[..|run|-1]), After(r, run))
  {
    var before, a := run[..|run|-1], run[|run|-1];
    LinesHold(r, before);
    ContinuesStep(r, After(r, before), a);
  }

  lemma LinesHold<S, F>(r: Reducer<S, F>, run: seq<Action<F>>)
    requires Legal(r, run)
    ensures Lines(After(r, run))
  {
    Invariant(r, run);
  }

  /** Nothing in the histories is ever withdrawn or reordered, whatever gives up or fills up, and
      a flush once answered or given up stays so. */
  lemma {:induction false} HistoryGrows<S, F>(r: Reducer<S, F>, run: seq<Action<F>>, k: nat)
    requires Legal(r, run) && k <= |run|
    ensures Legal(r, run[..k]) && Continues(After(r, run[..k]), After(r, run))
  {
    LegalPrefix(r, run, k);
    if k == |run| {
      assert run[..k] == run;
    } else {
      var n := |run| - 1;
      HistoryGrows(r, run[..n], k);
      assert run[..n][..k] == run[..k];
      ContinuesLast(r, run);
      ContinuesTransitive(After(r, run[..k]), After(r, run[..n]), After(r, run));
    }
  }

  /** The outputs handed over up to some message are those of a sequential run. */
  lemma HandedUpTo<S, F>(r: Reducer<S, F>, s: State<S, F>, i: nat)
    requires Flow(r, s) && i < |s.handed|
    ensures s.handed[..i+1] == Outputs(r, s.accepted[..i+1])
    ensures s.handed[i] == ReduceOne(r, FinalState(r, s.accepted[..i]), s.accepted[i]).1
  {
    var upTo := s.accepted[..i+1];
    OutputsPrefix(r, Processed(s), i + 1);
    assert Processed(s)[..i+1] == upTo && upTo[..i] == s.accepted[..i] && upTo[i] == s.accepted[i];
    assert s.handed[i] == s.handed[..i+1][i];
  }

  lemma BarrierAt<S, F>(r: Reducer<S, F>, s: State<S, F>, id: FlushId) returns (i: nat)
    requires Flow(r, s) && Barriers(s) && id in s.flushers && s.flushers[id].Acked?
    ensures i < |s.handed| <= |s.accepted| && s.accepted[i] == Flush(id)
    ensures s.handed[..i+1] == Outputs(r, s.accepted[..i+1])
    ensures s.handed[i] == r.flush(FinalState(r, s.accepted[..i])).1
  {
    assert HandedOver(s, id);
    i :| i < |s.handed| && s.accepted[i] == Flush(id);
    HandedUpTo(r, s, i);
  }

  /**
   The barrier: once a flush is acknowledged, everything ahead of it in the channel has been
   reduced and handed over, followed by the reducer's flush output; in particular everything
   accepted before the flush was called.
   */
  lemma {:induction false} FlushBarrier<S, F>(r: Reducer<S, F>, run: seq<Action<F>>, id: FlushId) returns (i: nat)
    requires Legal(r, run)
    requires id in After(r, run).flushers && After(r, run).flushers[id].Acked?
    ensures var s := After(r, run);
            && i < |s.handed| <= |s.accepted| && s.accepted[i] == Flush(id)
            && s.handed[..i+1] == Outputs(r, s.accepted[..i+1])
            && s.handed[i] == r.flush(FinalState(r, s.accepted[..i])).1
    ensures forall k :: 0 <= k < |run| && run[k] == StartFlush(id) && Legal(r, run[..k]) ==>
              |After(r, run[..k]).accepted| <= i
  {
    Invariant(r, run);
    i := BarrierAt(r, After(r, run), id);
    forall k | 0 <= k < |run| && run[k] == StartFlush(id) && Legal(r, run[..k])
      ensures |After(r, run[..k]).accepted| <= i
    {
      CalledBefore(r, run, k, id, i);
    }
  }

  /** A flush not yet called is not in the log. */
  lemma NotYetLogged<S, F>(s: State<S, F>, id: FlushId)
    requires Barriers(s) && id !in s.flushers
    ensures Flush(id) !in s.accepted
  {
  }

  /** A flush is behind everything accepted before it was called. */
  lemma CalledBefore<S, F>(r: Reducer<S, F>, run: seq<Action<F>>, k: nat, id: FlushId, i: nat)
    requires Legal(r, run) && k < |run| && run[k] == StartFlush(id) && Legal(r, run[..k])
    requires i < |After(r, run).accepted| && After(r, run).accepted[i] == Flush(id)
    ensures |After(r, run[..k]).accepted| <= i
  {
    HistoryGrows(r, run, k);
    NotLoggedBefore(r, run, k, id);
    assert After(r, run[..k]).accepted <= After(r, run).accepted;
  }

  lemma NotLoggedBefore<S, F>(r: Reducer<S, F>, run: seq<Action<F>>, k: nat, id: FlushId)
    requires Legal(r, run) && k < |run| && run[k] == StartFlush(id)
    ensures Legal(r, run[..k]) && Flush(id) !in After(r, run[..k]).accepted
  {
    LastStep(r, run, k);
    Invariant(r, run[..k]);
    NotYetLogged(After(r, run[..k]), id);
  }

  // ----- Giving up -----

  lemma LastStep<S, F>(r: Reducer<S, F>, run: seq<Action<F>>, k: nat)
    requires Legal(r, run) && k < |run|
    ensures Legal(r, run[..k]) && Enabled(r, After(r, run[..k]), run[k])
    ensures Legal(r, run[..k+1]) && After(r, run[..k+1]) == Apply(r, After(r, run[..k]), run[k])
  {
    LegalPrefix(r, run, k);
    LegalPrefix(r, run, k + 1);
    assert run[..k+1][..k] == run[..k];
  }

  lemma GiveUpNow<S, F>(s: State<S, F>, id: FlushId)
    requires Lines(s) && id in s.flushers
    ensures var t := ApplyGiveUp(s, id); t.accepted == s.accepted && id in t.flushers && t.flushers[id] == TimedOut
  {
    assert s.waiters != [] ==> s.waiters[0] in s.waiters;
  }

  lemma GivenUpStep<S, F>(r: Reducer<S, F>, s: State<S, F>, a: Action<F>, id: FlushId)
    requires Enabled(r, s, a) && Lines(s)
    requires id in s.flushers && s.flushers[id] == TimedOut && Flush(id) !in s.accepted
    ensures Flush(id) !in Apply(r, s, a).accepted
  {
  }

  /** A flush that has given up before it was queued is never queued. */
  lemma {:induction false} GivenUpStaysOut<S, F>(r: Reducer<S, F>, run: seq<Action<F>>, k: nat, id: FlushId)
    requires Legal(r, run) && k <= |run| && Legal(r, run[..k])
    requires id in After(r, run[..k]).flushers && After(r, run[..k]).flushers[id] == TimedOut
    requires Flush(id) !in After(r, run[..k]).accepted
    ensures Flush(id) !in After(r, run).accepted
  {
    if k == |run| {
      assert run[..k] == run;
    } else {
      var n := |run| - 1;
      assert run[..n][..k] == run[..k];
      GivenUpStaysOut(r, run[..n], k, id);
      HistoryGrows(r, run[..n], k);
      LinesHold(r, run[..n]);
      GivenUpStep(r, After(r, run[..n]), run[n], id);
    }
  }

  lemma TimedOutStep<S, F>(r: Reducer<S, F>, s: State<S, F>, a: Action<F>, id: FlushId)
    requires Enabled(r, s, a) && id in Apply(r, s, a).flushers && Apply(r, s, a).flushers[id] == TimedOut
    ensures a == GiveUp(id) || (id in s.flushers && s.flushers[id] == TimedOut)
  {
  }

  lemma {:induction false} OnlyByGivingUp<S, F>(r: Reducer<S, F>, run: seq<Action<F>>, id: FlushId)
    requires Legal(r, run) && id in After(r, run).flushers && After(r, run).flushers[id] == TimedOut
    ensures GiveUp(id) in run
  {
    if run != [] {
      var n := |run| - 1;
      TimedOutStep(r, After(r, run[..n]), run[n], id);
      if run[n] != GiveUp(id) {
        OnlyByGivingUp(r, run[..n], id);
      }
    }
  }

  lemma HandedIsSettled<S, F>(s: State<S, F>, id: FlushId)
    requires Barriers(s) && HandedOver(s, id) && s.worker != Acking(id)
    ensures id in s.flushers && (s.flushers[id].Acked? || s.flushers[id].TimedOut?)
  {
    var i: nat :| i < |s.handed| && i < |s.accepted| && s.accepted[i] == Flush(id);
    assert forall j :: 0 <= j < |s.accepted| - |s.handed| ==> s.accepted[|s.handed|..][j] == s.accepted[|s.handed| + j];
  }

  /** A caller that does not give up is answered exactly when its flush has been handed over and
      the worker has moved on from it. */
  lemma {:induction false} AnsweredIff<S, F>(r: Reducer<S, F>, run: seq<Action<F>>, id: FlushId)
    requires Legal(r, run) && GiveUp(id) !in run
    ensures var s := After(r, run);
            id in s.flushers && s.flushers[id].Acked? <==> HandedOver(s, id) && s.worker != Acking(id)
  {
    Invariant(r, run);
    var s := After(r, run);
    if HandedOver(s, id) && s.worker != Acking(id) {
      HandedIsSettled(s, id);
      if s.flushers[id].TimedOut? { OnlyByGivingUp(r, run, id); }
    }
  }

  /** The flush is at this place in the log: still ahead of the worker, or reduced in its turn. */
  ghost predicate LoggedAt<S, F>(r: Reducer<S, F>, s: State<S, F>, id: FlushId, i: nat) {
    && i < |s.accepted| && s.accepted[i] == Flush(id)
    && if i < |s.handed| then s.handed[i] == r.flush(FinalState(r, s.accepted[..i])).1
       else var ahead, j := InFlight(s.worker) + s.channel, i - |s.handed|; j < |ahead| && ahead[j] == Flush(id)
  }

  lemma LoggedInFlow<S, F>(r: Reducer<S, F>, s: State<S, F>, id: FlushId, i: nat)
    requires Flow(r, s) && i < |s.accepted| && s.accepted[i] == Flush(id)
    ensures LoggedAt(r, s, id, i)
  {
    if i < |s.handed| {
      HandedUpTo(r, s, i);
    } else {
      assert s.accepted[|s.handed|..][i - |s.handed|] == s.accepted[i];
    }
  }

  /**
   Giving up settles a flush but takes nothing back. It is in the log at the end of the run if and
   only if it was when it gave up; there it keeps its position, waits its turn, and is reduced in
   order like any other message.
   */
  lemma {:induction false} GivenUpStillReduced<S, F>(r: Reducer<S, F>, run: seq<Action<F>>, k: nat, id: FlushId)
    requires Legal(r, run) && k < |run| && run[k] == GiveUp(id)
    ensures Legal(r, run[..k])
    ensures var s, t := After(r, run[..k]), After(r, run);
            && id in t.flushers && t.flushers[id] == TimedOut
            && (Flush(id) in t.accepted <==> Flush(id) in s.accepted)
            && (forall i: nat :: i < |s.accepted| && s.accepted[i] == Flush(id) ==> LoggedAt(r, t, id, i))
  {
    LastStep(r, run, k);
    LinesHold(r, run[..k]);
    var s, t := After(r, run[..k]), After(r, run);
    GiveUpNow(s, id);
    HistoryGrows(r, run, k + 1);
    if Flush(id) !in s.accepted {
      GivenUpStaysOut(r, run, k + 1, id);
    }
    forall i: nat | i < |s.accepted| && s.accepted[i] == Flush(id) ensures LoggedAt(r, t, id, i) {
      FlowHolds(r, run);
      LoggedInFlow(r, t, id, i);
    }
  }

  lemma FlowHolds<S, F>(r: Reducer<S, F>, run: seq<Action<F>>)
    requires Legal(r, run)
    ensures Flow(r, After(r, run))
  {
    Invariant(r, run);
  }

  // ----- Progress -----

  predicate WorkerStep<F>(a: Action<F>) {
    a.Receive? || a.Reduce? || a.Deliver? || a.Acknowledge? || a.Stop?
  }

  function WorkerSteps<F>(run: seq<Action<F>>): nat {
    if run == [] then 0 else WorkerSteps(run[..|run|-1]) + if WorkerStep(run[|run|-1]) then 1 else 0
  }

  /** How far the worker has come, in quarters of a message. */
  function Advance<S, F>(s: State<S, F>): int {
    4 * |s.handed| + match s.worker
      case Waiting => 0
      case Handling(_) => 1
      case Sending(_, _) => 2
      case Acking(_) => -1
      case Stopped => 1
  }

  lemma {:induction false} WorkerAdvances<S, F>(r: Reducer<S, F>, run: seq<Action<F>>)
    requires Legal(r, run)
    ensures WorkerSteps(run) <= Advance(After(r, run))
  {
    if run != [] {
      var before, a := run[..|run|-1], run[|run|-1];
      WorkerAdvances(r, before);
      AdvanceStep(r, After(r, before), a);
    }
  }

  lemma AdvanceStep<S, F>(r: Reducer<S, F>, s: State<S, F>, a: Action<F>)
    requires Enabled(r, s, a)
    ensures if WorkerStep(a) then Advance(Apply(r, s, a)) > Advance(s) else Advance(Apply(r, s, a)) == Advance(s)
  {
  }

  /** A flush still queued at position `i` bounds the steps the worker has taken: no run lets the
      worker take `4 * (i + 1)` steps without answering it. */
  lemma {:induction false} FlushServed<S, F>(r: Reducer<S, F>, run: seq<Action<F>>, id: FlushId, i: nat)
    requires Legal(r, run)
    requires id in After(r, run).flushers && After(r, run).flushers[id].Queued?
    requires i < |After(r, run).accepted| && After(r, run).accepted[i] == Flush(id)
    ensures WorkerSteps(run) < 4 * (i + 1)
  {
    Invariant(r, run);
    WorkerAdvances(r, run);
    QueuedAhead(After(r, run), id, i);
  }

  lemma QueuedAhead<S, F>(s: State<S, F>, id: FlushId, i: nat)
    requires Barriers(s) && id in s.flushers && s.flushers[id].Queued?
    requires i < |s.accepted| && s.accepted[i] == Flush(id)
    ensures Advance(s) < 4 * (i + 1)
  {
    var ahead := s.accepted[|s.handed|..];
    if Flush(id) in ahead {
      var j :| 0 <= j < |ahead| && ahead[j] == Flush(id);
      assert s.accepted[|s.handed| + j] == Flush(id);
    }
  }

  function Receives<F>(run: seq<Action<F>>): nat {
    if run == [] then 0 else Receives(run[..|run|-1]) + if run[|run|-1].Receive? then 1 else 0
  }

  /** How many flushes stand in line before this one. */
  function Place(ids: seq<FlushId>, id: FlushId): nat
    requires id in ids
  {
    if ids[0] == id then 0 else 1 + Place(ids[1..], id)
  }

  lemma {:induction false} PlaceSnoc(ids: seq<FlushId>, id: FlushId, last: FlushId)
    ensures id in ids ==> Place(ids + [last], id) == Place(ids, id)
    ensures id !in ids ==> Place(ids + [id], id) == |ids|
  {
    if ids != [] {
      PlaceSnoc(ids[1..], id, last);
      assert (ids + [last])[1..] == ids[1..] + [last];
      assert (ids + [id])[1..] == ids[1..] + [id];
    }
  }

  lemma {:induction false} PlaceWithout(ids: seq<FlushId>, id: FlushId, gone: FlushId)
    requires id in ids && id != gone
    ensures id in Without(ids, gone) && Place(Without(ids, gone), id) <= Place(ids, id)
  {
    if ids[0] != id {
      PlaceWithout(ids[1..], id, gone);
      assert ids[0] != gone ==> Without(ids, gone) == [ids[0]] + Without(ids[1..], gone);
    }
  }

  ghost predicate IsBlocked<S, F>(s: State<S, F>, id: FlushId) {
    id in s.flushers && s.flushers[id].Blocked?
  }

  /** A flush still waiting was waiting before, and no step moves it back in line. */
  lemma PlaceStep<S, F>(r: Reducer<S, F>, s: State<S, F>, a: Action<F>, id: FlushId)
    requires Enabled(r, s, a) && Lines(s) && id in s.flushers && IsBlocked(Apply(r, s, a), id)
    ensures IsBlocked(s, id) && id in s.waiters && id in Apply(r, s, a).waiters
    ensures Place(Apply(r, s, a).waiters, id) + (if a.Receive? then 1 else 0) <= Place(s.waiters, id)
  {
    assert id in s.waiters;
    match a {
      case StartFlush(other) => PlaceSnoc(s.waiters, id, other);
      case GiveUp(other) => PlaceGiveUp(s, other, id);
      case _ =>
    }
  }

  lemma PlaceGiveUp<S, F>(s: State<S, F>, other: FlushId, id: FlushId)
    requires Lines(s) && other in s.flushers && id in s.waiters && IsBlocked(ApplyGiveUp(s, other), id)
    ensures var t := ApplyGiveUp(s, other); id in t.waiters && Place(t.waiters, id) <= Place(s.waiters, id)
  {
    if s.flushers[other].Blocked? {
      PlaceWithout(s.waiters, id, other);
    }
  }

  lemma JoinsLast<S, F>(s: State<S, F>, id: FlushId)
    requires Lines(s) && id !in s.flushers && IsBlocked(ApplyStartFlush(s, id), id)
    ensures var t := ApplyStartFlush(s, id); id in t.waiters && Place(t.waiters, id) == |s.waiters|
  {
    assert id !in s.waiters;
    PlaceSnoc(s.waiters, id, id);
  }

  /** How many steps the worker has made since it last took a message, at most. */
  function Phase<F>(w: Worker<F>): nat {
    match w
    case Handling(_) => 0
    case Sending(_, _) => 1
    case Acking(_) => 2
    case Waiting => 3
    case Stopped => 4
  }

  lemma PhaseStep<S, F>(r: Reducer<S, F>, s: State<S, F>, a: Action<F>)
    requires Enabled(r, s, a)
    ensures Phase(s.worker) + (if WorkerStep(a) then 1 else 0) <=
            Phase(Apply(r, s, a).worker) + (if a.Receive? then 4 else 0)
  {
  }

  lemma CountSnoc<F>(run: seq<Action<F>>, a: Action<F>)
    ensures Receives(run + [a]) == Receives(run) + if a.Receive? then 1 else 0
    ensures WorkerSteps(run + [a]) == WorkerSteps(run) + if WorkerStep(a) then 1 else 0
  {
    assert (run + [a])[..|run|] == run;
  }

  /** After these steps in line, the flush has moved forward from place `w` with each message taken. */
  ghost predicate MovedUp<S, F>(s: State<S, F>, id: FlushId, steps: seq<Action<F>>, w: nat) {
    && id in s.waiters
    && Receives(steps) + Place(s.waiters, id) <= w
    && WorkerSteps(steps) <= 4 * Receives(steps) + Phase(s.worker)
  }

  lemma MovedUpStep<S, F>(r: Reducer<S, F>, s: State<S, F>, a: Action<F>, id: FlushId, steps: seq<Action<F>>, w: nat)
    requires Enabled(r, s, a) && Lines(s) && id in s.flushers && IsBlocked(Apply(r, s, a), id)
    requires MovedUp(s, id, steps, w)
    ensures MovedUp(Apply(r, s, a), id, steps + [a], w)
  {
    PlaceStep(r, s, a, id);
    PhaseStep(r, s, a);
    CountSnoc(steps, a);
  }

  lemma BlockedBefore<S, F>(r: Reducer<S, F>, s: State<S, F>, a: Action<F>, id: FlushId)
    requires Enabled(r, s, a) && Lines(s) && id in s.flushers && IsBlocked(Apply(r, s, a), id)
    ensures IsBlocked(s, id)
  {
    PlaceStep(r, s, a, id);
  }

  /** While the flush called at step `k` waits, each message taken brings it forward in line. */
  lemma {:induction false} BlockedAdvances<S, F>(r: Reducer<S, F>, run: seq<Action<F>>, k: nat, id: FlushId)
    requires Legal(r, run) && k < |run| && run[k] == StartFlush(id) && IsBlocked(After(r, run), id)
    ensures Legal(r, run[..k])
    ensures MovedUp(After(r, run), id, run[k+1..], |After(r, run[..k]).waiters|)
  {
    var n := |run| - 1;
    var s, a := After(r, run[..n]), run[n];
    LinesHold(r, run[..n]);
    if k == n {
      JoinsLast(s, id);
      assert run[k+1..] == [];
    } else {
      StillKnown(r, run, k, id);
      BlockedBefore(r, s, a, id);
      BlockedAdvances(r, run[..n], k, id);
      TailSnoc(run, k);
      MovedUpStep(r, s, a, id, run[..n][k+1..], |After(r, run[..k]).waiters|);
    }
  }

  lemma TailSnoc<T>(s: seq<T>, k: nat)
    requires k + 1 < |s|
    ensures var n := |s| - 1; s[..n][..k] == s[..k] && s[k+1..] == s[..n][k+1..] + [s[n]]
  {
  }

  lemma StillKnown<S, F>(r: Reducer<S, F>, run: seq<Action<F>>, k: nat, id: FlushId)
    requires Legal(r, run) && k < |run| - 1 && run[k] == StartFlush(id)
    ensures Legal(r, run[..|run|-1]) && id in After(r, run[..|run|-1]).flushers
  {
    var before := run[..|run|-1];
    LastStep(r, run, k);
    assert before[..k+1] == run[..k+1];
    HistoryGrows(r, before, k + 1);
  }

  /**
   A flush that joined the line behind `w` others waits for at most `w` more messages to be taken:
   no run lets the worker take another, or make `4 * (w + 1)` steps, and leave it blocked.
   */
  lemma {:induction false} BlockedServed<S, F>(r: Reducer<S, F>, run: seq<Action<F>>, k: nat, id: FlushId)
    requires Legal(r, run) && k < |run| && run[k] == StartFlush(id) && IsBlocked(After(r, run), id)
    ensures Legal(r, run[..k])
    ensures var w := |After(r, run[..k]).waiters|; Receives(run[k+1..]) <= w && WorkerSteps(run[k+1..]) < 4 * (w + 1)
  {
    BlockedAdvances(r, run, k, id);
    LinesHold(r, run);
    assert !After(r, run).worker.Stopped?;
  }

  /** A pending flush is never stuck: the worker or a flush holding a slot can always move. */
  lemma {:induction false} FlushCanMove<S, F>(r: Reducer<S, F>, run: seq<Action<F>>, id: FlushId) returns (a: Action<F>)
    requires Legal(r, run)
    requires id in After(r, run).flushers && Pending(After(r, run).flushers[id])
    ensures Enabled(r, After(r, run), a) && (WorkerStep(a) || a.PushFlush?)
  {
    Invariant(r, run);
    var s := After(r, run);
    match s.worker {
      case Handling(_) => a := Reduce;
      case Sending(_, events) =>
        var requests := SplitExists(Deliverable(Backend, events));
        a := Deliver(Backend, requests);
      case Acking(_) => a := Acknowledge;
      case Waiting =>
        if s.channel != [] {
          a := Receive;
        } else {
          SlotHeld(r, s, id);
          var g :| g in s.granted;
          a := PushFlush(g);
        }
    }
  }

  /** With an idle worker and an empty channel, a pending flush means a slot is held. */
  lemma SlotHeld<S, F>(r: Reducer<S, F>, s: State<S, F>, id: FlushId)
    requires Flow(r, s) && Slots(s) && Lines(s) && Barriers(s)
    requires s.worker.Waiting? && s.channel == [] && id in s.flushers && Pending(s.flushers[id])
    ensures s.granted != {}
  {
    assert s.accepted[|s.handed|..] == [];
    assert id in s.waiters || id in s.granted;
  }

  /** A stopped worker has handed over everything that was ever accepted. */
  lemma {:induction false} DrainedOnStop<S, F>(r: Reducer<S, F>, run: seq<Action<F>>)
    requires Legal(r, run) && After(r, run).worker.Stopped?
    ensures var s := After(r, run);
            && s.handed == Outputs(r, s.accepted)
            && |s.auths| == |s.handed|
            && Flatten(s.wire) == AllDeliverable(s.auths, Outputs(r, s.accepted))
  {
    Invariant(r, run);
    NothingLeft(r, After(r, run));
  }

  lemma NothingLeft<S, F>(r: Reducer<S, F>, s: State<S, F>)
    requires Flow(r, s) && Lines(s) && s.worker.Stopped?
    ensures s.handed == Outputs(r, s.accepted)
  {
    assert s.accepted[|s.handed|..] == [];
    assert s.accepted[..|s.handed|] == s.accepted;
  }

  // ----- The worker loop -----

  function FlushIds<F>(msgs: seq<Message<F>>): seq<FlushId> {
    if msgs == [] then []
    else FlushIds(msgs[..|msgs|-1]) + if msgs[|msgs|-1].Flush? then [msgs[|msgs|-1].id] else []
  }

  lemma WorkerLoopStep<S, F>(r: Reducer<S, F>, msgs: seq<Message<F>>, auths: seq<Auth>, i: nat)
    requires i < |msgs| == |auths|
    ensures var out := ReduceOne(r, FinalState(r, msgs[..i]), msgs[i]);
            && FinalState(r, msgs[..i+1]) == out.0
            && Outputs(r, msgs[..i+1]) == Outputs(r, msgs[..i]) + [out.1]
            && AllDeliverable(auths[..i+1], Outputs(r, msgs[..i+1])) ==
               AllDeliverable(auths[..i], Outputs(r, msgs[..i])) + Deliverable(auths[i], out.1)
            && FlushIds(msgs[..i+1]) == FlushIds(msgs[..i]) + if msgs[i].Flush? then [msgs[i].id] else []
  {
    assert msgs[..i+1][..i] == msgs[..i] && auths[..i+1][..i] == auths[..i];
    assert Outputs(r, msgs[..i+1])[..i] == Outputs(r, msgs[..i]);
  }

  /** The flushes stand at these places among the messages, in order. */
  ghost predicate FlushesAt<F>(msgs: seq<Message<F>>, ids: seq<FlushId>, at: seq<nat>) {
    && |at| == |ids|
    && (forall j, k :: 0 <= j < k < |at| ==> at[j] < at[k])
    && (forall j :: 0 <= j < |at| ==> at[j] < |msgs| && msgs[at[j]] == Flush(ids[j]))
    && (forall i: nat :: i < |msgs| && msgs[i].Flush? ==> i in at)
  }

  lemma FlushesAtSnoc<F>(msgs: seq<Message<F>>, ids: seq<FlushId>, at: seq<nat>, m: Message<F>)
    requires FlushesAt(msgs, ids, at)
    ensures if m.Flush? then FlushesAt(msgs + [m], ids + [m.id], at + [|msgs|]) else FlushesAt(msgs + [m], ids, at)
  {
    var all := msgs + [m];
    assert forall i: nat :: i < |all| && all[i].Flush? && i != |msgs| ==> msgs[i] == all[i] && i in at;
  }

  lemma {:induction false} FlushPlaces<F>(msgs: seq<Message<F>>) returns (at: seq<nat>)
    ensures FlushesAt(msgs, FlushIds(msgs), at)
  {
    if msgs == [] {
      at := [];
    } else {
      var n := |msgs| - 1;
      var before := FlushPlaces(msgs[..n]);
      FlushesAtSnoc(msgs[..n], FlushIds(msgs[..n]), before, msgs[n]);
      assert msgs == msgs[..n] + [msgs[n]];
      at := if msgs[n].Flush? then before + [n] else before;
    }
  }

  /** After `i` messages: the reducer's state, what was handed over, sent and acknowledged. */
  ghost predicate WorkerAt<S, F>(r: Reducer<S, F>, msgs: seq<Message<F>>, auths: seq<Auth>, i: nat,
                                 state: S, handed: seq<seq<Event>>, wire: seq<Batch>, acks: seq<FlushId>)
    requires i <= |msgs| == |auths|
  {
    && state == FinalState(r, msgs[..i])
    && handed == Outputs(r, msgs[..i])
    && Flatten(wire) == AllDeliverable(auths[..i], handed)
    && acks == FlushIds(msgs[..i])
  }

  lemma WorkerAtNext<S, F>(r: Reducer<S, F>, msgs: seq<Message<F>>, auths: seq<Auth>, i: nat,
                           state: S, handed: seq<seq<Event>>, wire: seq<Batch>, acks: seq<FlushId>, requests: seq<Batch>)
    requires i < |msgs| == |auths| && WorkerAt(r, msgs, auths, i, state, handed, wire, acks)
    requires GoodSplit(requests, Deliverable(auths[i], ReduceOne(r, state, msgs[i]).1))
    ensures var out := ReduceOne(r, state, msgs[i]);
            WorkerAt(r, msgs, auths, i + 1, out.0, handed + [out.1], wire + requests,
                     acks + if msgs[i].Flush? then [msgs[i].id] else [])
  {
    WorkerLoopStep(r, msgs, auths, i);
    FlattenConcat(wire, requests);
  }

  lemma WorkerAtEnd<S, F>(r: Reducer<S, F>, msgs: seq<Message<F>>, auths: seq<Auth>,
                          state: S, handed: seq<seq<Event>>, wire: seq<Batch>, acks: seq<FlushId>)
    requires |msgs| == |auths| && WorkerAt(r, msgs, auths, |msgs|, state, handed, wire, acks)
    ensures handed == Outputs(r, msgs) && Flatten(wire) == AllDeliverable(auths, handed) && acks == FlushIds(msgs)
  {
    assert msgs[..|msgs|] == msgs && auths[..|msgs|] == auths;
  }

  /** The worker's loop over the messages it receives until the channel closes, with the
      credential in force at each delivery. */
  method RunWorker<S, F>(r: Reducer<S, F>, msgs: seq<Message<F>>, auths: seq<Auth>)
    returns (handed: seq<seq<Event>>, wire: seq<Batch>, acks: seq<FlushId>)
    requires |auths| == |msgs|
    ensures |handed| == |msgs| && exists states :: PassesThrough(r, msgs, states, handed)
    ensures exists parts :: SentAs(auths, handed, parts) && Flatten(wire) == Flatten(parts)
    ensures exists at :: FlushesAt(msgs, acks, at)
    ensures handed == Outputs(r, msgs) && Flatten(wire) == AllDeliverable(auths, handed) && acks == FlushIds(msgs)
  {
    handed, wire, acks := [], [], [];
    var state := r.initial;
    for i := 0 to |msgs|
      invariant WorkerAt(r, msgs, auths, i, state, handed, wire, acks)
    {
      ghost var before, sofar := state, acks;
      var events;
      match msgs[i] {
        case Flush(id) =>
          var next := r.flush(state);
          state, events := next.0, next.1;
          acks := acks + [id];
        case Fact(fact) =>
          var next := r.ingest(state, fact);
          state, events := next.0, next.1;
      }
      var requests := SendTrackEvents(auths[i], events);
      WorkerAtNext(r, msgs, auths, i, before, handed, wire, sofar, requests);
      handed := handed + [events];
      wire := wire + requests;
    }
    WorkerAtEnd(r, msgs, auths, state, handed, wire, acks);
    WorkerMeaning(r, msgs, auths);
  }

  lemma WorkerMeaning<S, F>(r: Reducer<S, F>, msgs: seq<Message<F>>, auths: seq<Auth>)
    requires |auths| == |msgs|
    ensures exists states :: PassesThrough(r, msgs, states, Outputs(r, msgs))
    ensures exists parts ::
              SentAs(auths, Outputs(r, msgs), parts) && AllDeliverable(auths, Outputs(r, msgs)) == Flatten(parts)
    ensures exists at :: FlushesAt(msgs, FlushIds(msgs), at)
  {
    var states := OutputStates(r, msgs);
    var parts := DeliverableParts(auths, Outputs(r, msgs));
    var at := FlushPlaces(msgs);
  }
}
