/** Matching responses to outgoing requests, over all interleavings of the service loop with the
    tasks that wait for talk responses. */
module Requests {
  import opened Wrappers

  type RequestId = nat
  /** Destination, request, responder and response are carried along uninspected. */
  datatype Active<D, R> = Active(destination: D, request: R, responder: Option<nat>)
  datatype Response<P> = Response(id: RequestId, payload: P)

  /** A response matched to its request: sent to the responder, if any, and processed for the
      destination. */
  datatype Outcome<D, R, P> = Outcome(id: RequestId, matched: Active<D, R>, payload: P)

  /** `active` is the table, `tasks` the requests on the wire, `responses` the response channel.
      `sent`, `reported` and `outcomes` record the past; `unmatched` counts responses for which
      no request was found. */
  datatype State<D, R, P> = State(
    active: map<RequestId, Active<D, R>>,
    tasks: set<RequestId>,
    responses: seq<Response<P>>,
    sent: map<RequestId, Active<D, R>>,
    reported: map<RequestId, P>,
    outcomes: seq<Outcome<D, R, P>>,
    unmatched: nat)

  function Init<D, R, P>(): State<D, R, P>
  {
    State(map[], {}, [], map[], map[], [], 0)
  }

  datatype Event<D, R, P> =
    | Issue(id: RequestId, request: Active<D, R>)
    | Report(task: RequestId, payload: P)
    | Receive

  /** Identifiers are drawn at random from 128 bits; here they are fresh. */
  predicate Enabled<D, R, P>(s: State<D, R, P>, e: Event<D, R, P>)
  {
    match e
    case Issue(id, _) => id !in s.sent
    case Report(task, _) => task in s.tasks
    case Receive => s.responses != []
  }

  function Apply<D, R, P>(s: State<D, R, P>, e: Event<D, R, P>): State<D, R, P>
    requires Enabled(s, e)
  {
    match e
    // `process_request`, outgoing arm, and the task started by `send_talk_req`
    case Issue(id, a) =>
      s.(active := s.active[id := a], tasks := s.tasks + {id}, sent := s.sent[id := a])
    // the end of that task
    case Report(id, p) =>
      s.(tasks := s.tasks - {id}, responses := s.responses + [Response(id, p)], reported := s.reported[id := p])
    // the response arm of the service loop
    case Receive =>
      var r := s.responses[0];
      var t := s.(responses := s.responses[1..]);
      if r.id in s.active
      then t.(active := s.active - {r.id}, outcomes := s.outcomes + [Outcome(r.id, s.active[r.id], r.payload)])
      else t.(unmatched := s.unmatched + 1)
  }

  ghost predicate IsRun<D, R, P>(trace: seq<State<D, R, P>>, events: seq<Event<D, R, P>>)
  {
    && |trace| == |events| + 1
    && trace[0] == Init()
    && forall i :: 0 <= i < |events| ==> StepAt(trace, events, i)
  }

  ghost predicate StepAt<D, R, P>(trace: seq<State<D, R, P>>, events: seq<Event<D, R, P>>, i: nat)
    requires i < |events| && |trace| == |events| + 1
  {
    Enabled(trace[i], events[i]) && trace[i + 1] == Apply(trace[i], events[i])
  }

  // --- Invariant ---

  ghost function Ids<T>(id: T -> RequestId, s: seq<T>): set<RequestId>
  {
    set i | 0 <= i < |s| :: id(s[i])
  }

  ghost predicate DistinctIds<T>(id: T -> RequestId, s: seq<T>)
  {
    forall i, j :: 0 <= i < j < |s| ==> id(s[i]) != id(s[j])
  }

  lemma IdsAppend<T>(id: T -> RequestId, s: seq<T>, x: T)
    ensures Ids(id, s + [x]) == Ids(id, s) + {id(x)}
    ensures DistinctIds(id, s) && id(x) !in Ids(id, s) ==> DistinctIds(id, s + [x])
  {
    var t := s + [x];
    assert forall i :: 0 <= i < |s| ==> t[i] == s[i] && id(s[i]) in Ids(id, s);
    assert id(t[|s|]) in Ids(id, t);
    forall y | y in Ids(id, s) ensures y in Ids(id, t) {
      var i :| 0 <= i < |s| && id(s[i]) == y;
      assert id(t[i]) == y;
    }
  }

  lemma IdsTail<T>(id: T -> RequestId, s: seq<T>)
    requires s != [] && DistinctIds(id, s)
    ensures id(s[0]) in Ids(id, s)
    ensures Ids(id, s[1..]) == Ids(id, s) - {id(s[0])}
    ensures DistinctIds(id, s[1..])
  {
    var t := s[1..];
    assert forall i :: 0 <= i < |t| ==> t[i] == s[i + 1];
    forall y | y in Ids(id, s) && y != id(s[0]) ensures y in Ids(id, t) {
      var i :| 0 <= i < |s| && id(s[i]) == y;
      assert id(t[i - 1]) == y;
    }
  }

  function ResponseId<P>(): Response<P> -> RequestId
  {
    (r: Response<P>) => r.id
  }

  function OutcomeId<D, R, P>(): Outcome<D, R, P> -> RequestId
  {
    (o: Outcome<D, R, P>) => o.id
  }

  ghost function Processed<D, R, P>(s: State<D, R, P>): set<RequestId>
  {
    Ids(OutcomeId(), s.outcomes)
  }

  ghost function Queued<D, R, P>(s: State<D, R, P>): set<RequestId>
  {
    Ids(ResponseId(), s.responses)
  }

  /** Where each request that was ever sent is now: on the wire, in the channel, or processed. */
  ghost predicate Partitioned<D, R, P>(s: State<D, R, P>)
  {
    && s.tasks !! Queued(s) && s.tasks !! Processed(s) && Queued(s) !! Processed(s)
    && s.sent.Keys == s.tasks + Queued(s) + Processed(s)
    && s.active.Keys == s.tasks + Queued(s)
    && s.reported.Keys == Queued(s) + Processed(s)
    && DistinctIds(ResponseId(), s.responses)
    && DistinctIds(OutcomeId(), s.outcomes)
  }

  ghost predicate Consistent<D, R, P>(s: State<D, R, P>)
  {
    && s.unmatched == 0
    && (forall id :: id in s.active ==> id in s.sent && s.active[id] == s.sent[id])
    && (forall i :: 0 <= i < |s.responses| ==>
          s.responses[i].id in s.reported && s.responses[i].payload == s.reported[s.responses[i].id])
    && (forall i :: 0 <= i < |s.outcomes| ==>
          var o := s.outcomes[i];
          o.id in s.sent && o.matched == s.sent[o.id] && o.id in s.reported && o.payload == s.reported[o.id])
  }

  lemma IssueKeeps<D, R, P>(s: State<D, R, P>, id: RequestId, a: Active<D, R>)
    requires Partitioned(s) && Consistent(s) && id !in s.sent
    ensures var s' := Apply(s, Issue(id, a)); Partitioned(s') && Consistent(s')
  {
    hide Ids, DistinctIds;
  }

  lemma ReportKeeps<D, R, P>(s: State<D, R, P>, id: RequestId, p: P)
    requires Partitioned(s) && Consistent(s) && id in s.tasks
    ensures var s' := Apply(s, Report(id, p)); Partitioned(s') && Consistent(s')
  {
    hide Ids, DistinctIds;
    IdsAppend(ResponseId<P>(), s.responses, Response(id, p));
  }

  lemma ReceiveKeeps<D, R, P>(s: State<D, R, P>)
    requires Partitioned(s) && Consistent(s) && s.responses != []
    ensures var s' := Apply(s, Receive); Partitioned(s') && Consistent(s')
  {
    hide Ids, DistinctIds;
    var r := s.responses[0];
    IdsTail(ResponseId<P>(), s.responses);
    IdsAppend(OutcomeId<D, R, P>(), s.outcomes, Outcome(r.id, s.active[r.id], r.payload));
  }

  lemma {:induction false} RunInvariant<D, R, P>(trace: seq<State<D, R, P>>, events: seq<Event<D, R, P>>, i: nat)
    requires IsRun(trace, events) && i < |trace|
    ensures Partitioned(trace[i]) && Consistent(trace[i])
  {
    if i > 0 {
      RunInvariant(trace, events, i - 1);
      assert StepAt(trace, events, i - 1);
      match events[i - 1]
      case Issue(id, a) => IssueKeeps(trace[i - 1], id, a);
      case Report(id, p) => ReportKeeps(trace[i - 1], id, p);
      case Receive => ReceiveKeeps(trace[i - 1]);
    }
  }

  // --- In terms of the events ---

  /** The history fields hold what the events carried: a request as it was issued, before its
      response as it was reported. */
  lemma {:induction false} HistoryFromEvents<D(!new), R(!new), P(!new)>(
      trace: seq<State<D, R, P>>, events: seq<Event<D, R, P>>, i: nat)
    requires IsRun(trace, events) && i < |trace|
    ensures forall id, a :: (id in trace[i].sent && trace[i].sent[id] == a) <==> Issue(id, a) in events[..i]
    ensures forall id, p :: id in trace[i].reported && trace[i].reported[id] == p ==>
              ReportedAfterIssue(events[..i], id, p)
  {
    if i > 0 {
      var n := i - 1;
      HistoryFromEvents(trace, events, n);
      assert StepAt(trace, events, n);
      RunInvariant(trace, events, n);
      assert events[..i] == events[..n] + [events[n]];
      var s, s', es := trace[n], trace[i], events[..n];
      forall id, p | id in s'.reported && s'.reported[id] == p ensures ReportedAfterIssue(events[..i], id, p) {
        if id in s.reported && s.reported[id] == p {
          ReportedStays(es, events[n], id, p);
        } else {
          assert events[n] == Report(id, p);
          assert id in s.sent;
          assert Issue(id, s.sent[id]) in es;
          ReportedNow(es, id, s.sent[id], p);
        }
      }
    }
  }

  /** `id` was issued and, later, its task reported `p`. */
  ghost predicate ReportedAfterIssue<D(!new), R(!new), P>(events: seq<Event<D, R, P>>, id: RequestId, p: P)
  {
    exists j, k :: 0 <= j < k < |events| && events[j].Issue? && events[j].id == id && events[k] == Report(id, p)
  }

  lemma ReportedStays<D(!new), R(!new), P>(events: seq<Event<D, R, P>>, e: Event<D, R, P>, id: RequestId, p: P)
    requires ReportedAfterIssue(events, id, p)
    ensures ReportedAfterIssue(events + [e], id, p)
  {
    var j, k :| 0 <= j < k < |events| && events[j].Issue? && events[j].id == id && events[k] == Report(id, p);
    var more := events + [e];
    assert more[j] == events[j] && more[k] == events[k];
  }

  lemma ReportedNow<D(!new), R(!new), P>(events: seq<Event<D, R, P>>, id: RequestId, a: Active<D, R>, p: P)
    requires Issue(id, a) in events
    ensures ReportedAfterIssue(events + [Report(id, p)], id, p)
  {
    var j :| 0 <= j < |events| && events[j] == Issue(id, a);
    var more := events + [Report(id, p)];
    assert more[j] == events[j] && more[|events|] == Report(id, p);
  }

  ghost predicate HasOutcome<D, R, P>(s: State<D, R, P>, id: RequestId)
  {
    exists k :: 0 <= k < |s.outcomes| && s.outcomes[k].id == id
  }

  /** The events behind outcome `o`: issued at `j` with exactly what it is matched to, reported at `k`
      with exactly the payload it carries. */
  ghost predicate ComesFrom<D, R, P>(events: seq<Event<D, R, P>>, o: Outcome<D, R, P>, j: nat, k: nat)
  {
    j < k < |events| && events[j] == Issue(o.id, o.matched) && events[k] == Report(o.id, o.payload)
  }

  ghost predicate HasSource<D, R, P>(events: seq<Event<D, R, P>>, o: Outcome<D, R, P>)
  {
    exists j: nat, k: nat :: ComesFrom(events, o, j, k)
  }

  /** In every state of every run, over all interleavings: the table holds a request exactly if it was
      issued, as it was issued, and has no outcome yet; every outcome pairs a request as it was issued
      with the response its own task reported later; no request has two; and no response ever goes
      unmatched. */
  lemma EveryResponseFindsItsRequest<D(!new), R(!new), P(!new)>(
      trace: seq<State<D, R, P>>, events: seq<Event<D, R, P>>, i: nat)
    requires IsRun(trace, events) && i < |trace|
    ensures forall id, a :: (id in trace[i].active && trace[i].active[id] == a) <==>
                            (Issue(id, a) in events[..i] && !HasOutcome(trace[i], id))
    ensures forall n :: 0 <= n < |trace[i].outcomes| ==>
              HasSource(events[..i], trace[i].outcomes[n])
    ensures forall j, k :: 0 <= j < k < |trace[i].outcomes| ==>
              trace[i].outcomes[j].id != trace[i].outcomes[k].id
    ensures trace[i].unmatched == 0
  {
    RunInvariant(trace, events, i);
    HistoryFromEvents(trace, events, i);
    var s, es := trace[i], events[..i];
    forall id ensures HasOutcome(s, id) <==> id in Processed(s) {}
    forall n | 0 <= n < |s.outcomes| ensures HasSource(es, s.outcomes[n]) {
      var o := s.outcomes[n];
      assert ReportedAfterIssue(es, o.id, o.payload);
      var j, k :| 0 <= j < k < |es| && es[j].Issue? && es[j].id == o.id && es[k] == Report(o.id, o.payload);
      assert es[j] == Issue(o.id, es[j].request) && es[j] in es;
      assert ComesFrom(es, o, j, k);
    }
  }

  /** Nothing is lost either: once every task has reported and the channel is drained, every
      request sent has its outcome and the table is empty. */
  lemma QuiescentMeansAnswered<D(!new), R(!new), P(!new)>(
      trace: seq<State<D, R, P>>, events: seq<Event<D, R, P>>, i: nat)
    requires IsRun(trace, events) && i < |trace|
    requires trace[i].tasks == {} && trace[i].responses == []
    ensures trace[i].active == map[]
    ensures forall id, a :: Issue(id, a) in events[..i] ==> HasOutcome(trace[i], id)
  {
    RunInvariant(trace, events, i);
    HistoryFromEvents(trace, events, i);
    var s := trace[i];
    assert Queued(s) == {};
    forall id | id in s.sent ensures HasOutcome(s, id) {
      assert id in Processed(s);
    }
  }

  // --- The service object ---

  class OverlayService<D, R, P> {
    var active: map<RequestId, Active<D, R>>
    var responses: seq<Response<P>>
    ghost var past: State<D, R, P>

    /** `past` mirrors the table and the channel and remembers what is gone from them; it satisfies
        the invariant of all runs. */
    ghost predicate Valid()
      reads this
    {
      past.active == active && past.responses == responses && Partitioned(past) && Consistent(past)
    }

    constructor ()
      ensures Valid() && past == Init()
    {
      active, responses := map[], [];
      past := Init();
    }

    method ProcessRequest(id: RequestId, request: Active<D, R>)
      requires Valid() && id !in past.sent
      modifies this
      ensures Valid() && past == Apply(old(past), Issue(id, request))
      ensures active == old(active)[id := request] && responses == old(responses)
    {
      IssueKeeps(past, id, request);
      active := active[id := request];
      past := Apply(past, Issue(id, request));
    }

    method TaskFinished(id: RequestId, payload: P)
      requires Valid() && id in past.tasks
      modifies this
      ensures Valid() && past == Apply(old(past), Report(id, payload))
      ensures active == old(active) && responses == old(responses) + [Response(id, payload)]
    {
      ReportKeeps(past, id, payload);
      responses := responses + [Response(id, payload)];
      past := Apply(past, Report(id, payload));
    }

    /** One turn of the response arm: a request is always found. */
    method ReceiveResponse() returns (o: Option<Outcome<D, R, P>>)
      requires Valid() && responses != []
      modifies this
      ensures Valid() && past == Apply(old(past), Receive)
      ensures old(responses[0].id) in old(active)
      ensures var r := old(responses[0]);
              && o == Some(Outcome(r.id, old(active)[r.id], r.payload))
              && active == old(active) - {r.id} && responses == old(responses)[1..]
      ensures past.outcomes == old(past).outcomes + [o.value]
    {
      hide Ids, DistinctIds;
      ReceiveKeeps(past);
      IdsTail(ResponseId<P>(), responses);
      var r := responses[0];
      past := Apply(past, Receive);
      responses := responses[1..];
      if r.id in active {
        o := Some(Outcome(r.id, active[r.id], r.payload));
        active := active - {r.id};
      } else {
        o := None;
      }
    }
  }
}
