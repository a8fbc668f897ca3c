/** What a FINDNODES query makes of its events: which peers it knows, has asked, has heard from or
    has given up, and the result it ends with, all in terms of the calls it received. */
module QueryOutcomes {
  import opened FindNodeQuery
  import opened QueryStages
  import opened Wrappers

  // --- Events ---

  /** Event `i` is a failure that the query takes. */
  ghost predicate FailureTaken(x: Execution, i: nat)
  {
    && i < |x.events| && x.events[i].Failure?
    && !Before(x, i).progress.Finished? && Awaited(Before(x, i), x.events[i].peer)
  }

  /** Event `i` is a poll that hands out `d`. */
  ghost predicate Asked(x: Execution, i: nat, d: nat)
  {
    i < |x.events| && x.events[i].PollAt? && Poll(Before(x, i), x.events[i].now).1 == Contact(d)
  }

  ghost predicate AnsweredBy(x: Execution, d: nat)
  {
    exists i: nat :: Counts(x, i) && x.events[i].peer == d
  }

  ghost predicate FailedBy(x: Execution, d: nat)
  {
    exists i: nat :: FailureTaken(x, i) && x.events[i].peer == d
  }

  ghost predicate AskedBy(x: Execution, d: nat)
  {
    exists i: nat :: Asked(x, i, d)
  }

  ghost predicate ReportedBy(x: Execution, d: nat)
  {
    exists i: nat :: Counts(x, i) && d in x.events[i].reported
  }

  /** `d` was asked at event `i`, to answer by `deadline`. */
  ghost predicate AskedUntil(x: Execution, i: nat, d: nat, deadline: nat)
  {
    Asked(x, i, d) && deadline == x.events[i].now + x.cfg.peerTimeout
  }

  /** `d` was asked at event `i` and the query polled, at event `j`, when the time for it was up. */
  ghost predicate TimeUp(x: Execution, i: nat, j: nat, d: nat)
  {
    && Asked(x, i, d) && i < j < |x.events| && x.events[j].PollAt?
    && x.events[j].now >= x.events[i].now + x.cfg.peerTimeout
  }

  lemma SameEvents(x: Execution, n: nat, i: nat, d: nat)
    requires i < n <= |x.events|
    ensures Counts(Upto(x, n), i) <==> Counts(x, i)
    ensures FailureTaken(Upto(x, n), i) <==> FailureTaken(x, i)
    ensures Asked(Upto(x, n), i, d) <==> Asked(x, i, d)
  {
    assert x.events[..n][..i] == x.events[..i];
  }

  lemma EventsWithin(x: Execution, i: nat, d: nat)
    ensures Counts(x, i) ==> i < |x.events| && x.events[i].Answer?
    ensures FailureTaken(x, i) ==> i < |x.events| && x.events[i].Failure?
    ensures Asked(x, i, d) ==> i < |x.events| && x.events[i].PollAt?
  {
  }

  /** One more event, for each of the four facts. */
  lemma FactsNext(x: Execution, d: nat)
    requires x.events != []
    ensures var n := |x.events| - 1;
            var y := Upto(x, n);
            && (AnsweredBy(x, d) <==> AnsweredBy(y, d) || (Counts(x, n) && x.events[n].peer == d))
            && (FailedBy(x, d) <==> FailedBy(y, d) || (FailureTaken(x, n) && x.events[n].peer == d))
            && (AskedBy(x, d) <==> AskedBy(y, d) || Asked(x, n, d))
            && (ReportedBy(x, d) <==> ReportedBy(y, d) || (Counts(x, n) && d in x.events[n].reported))
  {
    hide Counts, FailureTaken, Asked;
    var n := |x.events| - 1;
    var y := Upto(x, n);
    forall i: nat | i < n
      ensures Counts(y, i) <==> Counts(x, i)
      ensures FailureTaken(y, i) <==> FailureTaken(x, i)
      ensures Asked(y, i, d) <==> Asked(x, i, d)
    {
      SameEvents(x, n, i, d);
    }
    forall i: nat
      ensures Counts(x, i) ==> i <= n && x.events[i].Answer?
      ensures FailureTaken(x, i) ==> i <= n && x.events[i].Failure?
      ensures Counts(y, i) ==> i < n
      ensures FailureTaken(y, i) ==> i < n
      ensures (Asked(x, i, d) ==> i <= n) && (Asked(y, i, d) ==> i < n)
    {
      EventsWithin(x, i, d);
      EventsWithin(y, i, d);
    }
  }

  // --- One event ---

  /** A poll changes a peer in two ways only: it hands it out, with its deadline, or gives it up
      once the deadline has passed. */
  lemma {:induction false} PollFromChanges(q: Query, keys: seq<nat>, count: Option<nat>, full: bool, now: nat, d: nat)
    requires forall k :: k in keys ==> k in q.peers
    ensures var (q', r) := PollFrom(q, keys, count, full, now);
            && q'.peers.Keys == q.peers.Keys
            && (r == Contact(d) ==>
                  d in q.peers && q.peers[d].NotContacted? && q'.peers[d] == Waiting(now + q.cfg.peerTimeout))
            && (d in q.peers && r != Contact(d) ==>
                  || q'.peers[d] == q.peers[d]
                  || (q.peers[d].Waiting? && now >= q.peers[d].timeout && q'.peers[d].Unresponsive?))
    decreases |keys|
  {
    if keys != [] {
      var k, rest := keys[0], keys[1..];
      assert k in keys;
      match q.peers[k]
      case NotContacted =>
      case Waiting(t) =>
        if now >= t {
          PollFromChanges(Settle(q, k, Unresponsive), rest, count, full, now, d);
        } else if !full {
          PollFromChanges(q, rest, None, full, now, d);
        }
      case Succeeded =>
        if !(count.Some? && count.value + 1 >= q.cfg.numResults) {
          PollFromChanges(q, rest, if count.Some? then Some(count.value + 1) else None, full, now, d);
        }
      case _ => PollFromChanges(q, rest, count, full, now, d);
    }
  }

  lemma PollChanges(q: Query, now: nat, d: nat)
    ensures var (q', r) := Poll(q, now);
            && q'.peers.Keys == q.peers.Keys
            && (r == Contact(d) ==>
                  d in q.peers && q.peers[d].NotContacted? && q'.peers[d] == Waiting(now + q.cfg.peerTimeout))
            && (d in q.peers && r != Contact(d) ==>
                  || q'.peers[d] == q.peers[d]
                  || (q.peers[d].Waiting? && now >= q.peers[d].timeout && q'.peers[d].Unresponsive?))
  {
    hide PollFrom;
    if !q.progress.Finished? {
      PollFromChanges(q, InOrder(q.peers.Keys), Some(0), AtCapacityNow(q), now, d);
    }
  }

  /** The state of peer `d` after the last event. */
  lemma LastEvent(x: Execution, d: nat)
    requires x.events != []
    ensures var n := |x.events| - 1;
            var p, p' := Before(x, n).peers, AtEnd(x).peers;
            match x.events[n]
            case PollAt(now) => p'.Keys == p.Keys && PolledTo(x, n, p, p', d)
            case Failure(e) => p' == if FailureTaken(x, n) then p[e := Failed] else p
            case Answer(e, reported) =>
              if Counts(x, n) then e in p && p' == Incorporate(p[e := Succeeded], reported) else p' == p
  {
    hide Poll, Incorporate, MadeProgress;
    var n := |x.events| - 1;
    RunInvariant(x.cfg, x.known, x.events[..n]);
    if x.events[n].PollAt? {
      PollChanges(Before(x, n), x.events[n].now, d);
    }
  }

  ghost predicate PolledTo(x: Execution, n: nat, p: Peers, p': Peers, d: nat)
    requires n < |x.events| && x.events[n].PollAt? && p'.Keys == p.Keys
  {
    var now := x.events[n].now;
    && (Asked(x, n, d) ==> d in p && p[d].NotContacted? && p'[d] == Waiting(now + x.cfg.peerTimeout))
    && (d in p && !Asked(x, n, d) ==>
          p'[d] == p[d] || (p[d].Waiting? && now >= p[d].timeout && p'[d].Unresponsive?))
  }

  // --- Whole runs ---

  /** In every run a peer counts as having answered exactly if one of its answers was taken, as failed
      exactly if one of its failures was, and as contacted exactly if a poll handed it out. */
  lemma {:induction false} StatesFromEvents(x: Execution, d: nat)
    ensures d in Answered(AtEnd(x).peers) <==> AnsweredBy(x, d)
    ensures d in AtEnd(x).peers && AtEnd(x).peers[d].Failed? <==> FailedBy(x, d)
    ensures d in Contacted(AtEnd(x).peers) <==> AskedBy(x, d)
    decreases |x.events|
  {
    hide Counts, FailureTaken, Asked, AnsweredBy, FailedBy, AskedBy, ReportedBy, After;
    if x.events == [] {
      NothingYet(x, d);
    } else {
      var n := |x.events| - 1;
      StatesFromEvents(Upto(x, n), d);
      LastEvent(x, d);
      FactsNext(x, d);
      EventsWithin(x, n, d);
      TakenWasAwaited(x, n);
    }
  }

  /** An answer or a failure is taken, while the query runs, exactly if its peer was asked before and
      has neither answered nor failed since; a peer that was given up may still answer. */
  lemma AwaitedExactly(x: Execution, d: nat)
    ensures Awaited(AtEnd(x), d) <==> AskedBy(x, d) && !AnsweredBy(x, d) && !FailedBy(x, d)
  {
    hide After, AnsweredBy, FailedBy, AskedBy;
    StatesFromEvents(x, d);
  }

  lemma TakenExactly(x: Execution, i: nat)
    requires i < |x.events|
    ensures var y := Upto(x, i);
            && (Counts(x, i) <==>
                  && x.events[i].Answer? && !AtEnd(y).progress.Finished?
                  && AskedBy(y, x.events[i].peer) && !AnsweredBy(y, x.events[i].peer) && !FailedBy(y, x.events[i].peer))
            && (FailureTaken(x, i) <==>
                  && x.events[i].Failure? && !AtEnd(y).progress.Finished?
                  && AskedBy(y, x.events[i].peer) && !AnsweredBy(y, x.events[i].peer) && !FailedBy(y, x.events[i].peer))
  {
    hide After, AnsweredBy, FailedBy, AskedBy;
    if !x.events[i].PollAt? {
      AwaitedExactly(Upto(x, i), x.events[i].peer);
    }
  }

  /** Once a failure of a peer is taken, none of its answers counts and it is in no result. */
  lemma FailedForGood(x: Execution, i: nat, j: nat)
    requires FailureTaken(x, i)
    ensures i < j && Counts(x, j) ==> x.events[j].peer != x.events[i].peer
    ensures x.events[i].peer !in IntoResult(AtEnd(x))
  {
    hide After, Counts, FailureTaken, AnsweredBy, AskedBy;
    EventsWithin(x, i, 0);
    EventsWithin(x, j, 0);
    var d := x.events[i].peer;
    StatesFromEvents(x, d);
    assert FailedBy(x, d);
    if i < j && Counts(x, j) {
      SameEvents(x, j, i, d);
      assert FailedBy(Upto(x, j), d);
      TakenExactly(x, j);
    }
  }

  /** The peers known are the first ones given and those reported in an answer that was taken. */
  lemma {:induction false} KnownFromEvents(x: Execution, d: nat)
    ensures d in AtEnd(x).peers <==>
            || (exists j :: 0 <= j < |x.known| && j < x.cfg.numResults && x.known[j] == d)
            || ReportedBy(x, d)
    decreases |x.events|
  {
    hide Counts, FailureTaken, Asked, AnsweredBy, FailedBy, AskedBy, ReportedBy, After;
    if x.events == [] {
      NothingYet(x, d);
    } else {
      var n := |x.events| - 1;
      KnownFromEvents(Upto(x, n), d);
      LastEvent(x, d);
      FactsNext(x, d);
      EventsWithin(x, n, d);
      TakenWasAwaited(x, n);
    }
  }

  /** A peer is waited for until `peerTimeout` after it was asked, and given up only by a poll after
      that time. */
  lemma {:induction false} DeadlinesFromEvents(x: Execution, d: nat)
    requires d in AtEnd(x).peers
    ensures AtEnd(x).peers[d].Waiting? ==>
              exists i: nat :: AskedUntil(x, i, d, AtEnd(x).peers[d].timeout)
    ensures AtEnd(x).peers[d].Unresponsive? ==> exists i: nat, j: nat :: TimeUp(x, i, j, d)
    decreases |x.events|
  {
    hide Counts, FailureTaken, Asked, After;
    if x.events == [] {
      NothingYet(x, d);
    } else {
      var n := |x.events| - 1;
      var y := Upto(x, n);
      LastEvent(x, d);
      EventsWithin(x, n, d);
      TakenWasAwaited(x, n);
      assert Asked(x, n, d) ==> AskedUntil(x, n, d, x.events[n].now + x.cfg.peerTimeout);
      if d in AtEnd(y).peers {
        DeadlinesFromEvents(y, d);
        if AtEnd(y).peers[d].Waiting? {
          var i: nat :| AskedUntil(y, i, d, AtEnd(y).peers[d].timeout);
          EventsWithin(y, i, d);
          SameEvents(x, n, i, d);
          assert AskedUntil(x, i, d, AtEnd(y).peers[d].timeout);
          assert AtEnd(x).peers[d].Unresponsive? && x.events[n].PollAt? ==> TimeUp(x, i, n, d);
        } else if AtEnd(y).peers[d].Unresponsive? {
          var i: nat, j: nat :| TimeUp(y, i, j, d);
          SameEvents(x, n, i, d);
          assert TimeUp(x, i, j, d);
        }
      }
    }
  }

  lemma TakenWasAwaited(x: Execution, n: nat)
    requires n < |x.events|
    ensures Counts(x, n) || FailureTaken(x, n) ==>
              Before(x, n).peers.Keys >= {x.events[n].peer} &&
              (Before(x, n).peers[x.events[n].peer].Waiting? || Before(x, n).peers[x.events[n].peer].Unresponsive?)
  {
    hide After;
  }

  lemma NothingYet(x: Execution, d: nat)
    requires x.events == []
    ensures !AnsweredBy(x, d) && !FailedBy(x, d) && !AskedBy(x, d) && !ReportedBy(x, d)
    ensures d in AtEnd(x).peers <==> exists j :: 0 <= j < |x.known| && j < x.cfg.numResults && x.known[j] == d
    ensures d in AtEnd(x).peers ==> AtEnd(x).peers[d].NotContacted?
  {
    assert AtEnd(x) == Start(x.cfg, x.known).query;
  }

  // --- The result ---

  ghost function AnsweredPeers(x: Execution): set<nat>
  {
    set i: nat | i < |x.events| && Counts(x, i) :: x.events[i].peer
  }

  /** A peer the query knows that neither answered nor failed, and was not given up in time. */
  ghost predicate Outstanding(x: Execution, d: nat)
  {
    && (ReportedBy(x, d) || exists j :: 0 <= j < |x.known| && j < x.cfg.numResults && x.known[j] == d)
    && !AnsweredBy(x, d) && !FailedBy(x, d)
    && forall i: nat, j: nat :: !TimeUp(x, i, j, d)
  }

  lemma OutstandingIsPending(x: Execution, d: nat)
    requires Outstanding(x, d)
    ensures Pending(AtEnd(x).peers, d)
  {
    hide After, AnsweredBy, FailedBy, ReportedBy, TimeUp, Asked, AskedBy;
    KnownFromEvents(x, d);
    StatesFromEvents(x, d);
    DeadlinesFromEvents(x, d);
  }

  lemma AnsweredPeersExactly(x: Execution)
    ensures AnsweredPeers(x) == Answered(AtEnd(x).peers)
  {
    hide After, Counts;
    forall d ensures d in AnsweredPeers(x) <==> d in Answered(AtEnd(x).peers) {
      StatesFromEvents(x, d);
      forall i: nat | Counts(x, i) ensures i < |x.events| {
        EventsWithin(x, i, d);
      }
    }
  }

  /** When a query is finished, in whatever run, its result lists as many of the peers that answered
      as asked for, closest first; none that answered and is left out is closer than one of them;
      and neither is any outstanding peer, of which there is none if fewer than asked for are
      listed. */
  lemma FinishedQueryFoundTheClosest(x: Execution)
    requires AtEnd(x).progress.Finished?
    ensures var result := IntoResult(AtEnd(x));
            && (forall i, j :: 0 <= i < j < |result| ==> result[i] < result[j])
            && |result| == Min(x.cfg.numResults, |AnsweredPeers(x)|)
            && (forall r :: r in result ==> AnsweredBy(x, r))
            && (forall r, d: nat :: r in result && AnsweredBy(x, d) && d !in result ==> r < d)
            && (forall r, d: nat :: r in result && Outstanding(x, d) ==> r < d)
            && (|result| < x.cfg.numResults ==> forall d: nat :: !Outstanding(x, d))
  {
    hide After, AnsweredBy, Outstanding, Settled, IntoResult;
    FinishedResult(x.cfg, x.known, x.events);
    AnsweredPeersExactly(x);
    forall d: nat ensures AnsweredBy(x, d) <==> d in Answered(AtEnd(x).peers) {
      StatesFromEvents(x, d);
    }
    forall d: nat | Outstanding(x, d) ensures Pending(AtEnd(x).peers, d) {
      OutstandingIsPending(x, d);
    }
  }

  // --- Handing out peers ---

  lemma {:induction false} PollFromHandsOut(q: Query, keys: seq<nat>, count: Option<nat>, now: nat)
    requires Ascending(keys) && forall k :: k in keys ==> k in q.peers
    ensures var r := PollFrom(q, keys, count, false, now).1;
            && !r.AtCapacity?
            && (r.WaitingForPeers? ==> forall k :: k in keys ==> !q.peers[k].NotContacted?)
            && (r.Contact? ==> forall k :: k in keys && q.peers[k].NotContacted? ==> r.peer <= k)
    decreases |keys|
  {
    if keys != [] {
      var k, rest := keys[0], keys[1..];
      assert forall e :: e in keys <==> e == k || e in rest;
      match q.peers[k]
      case NotContacted =>
      case Waiting(t) =>
        if now >= t {
          PollFromHandsOut(Settle(q, k, Unresponsive), rest, count, now);
        } else {
          PollFromHandsOut(q, rest, None, now);
        }
      case Succeeded =>
        if !(count.Some? && count.value + 1 >= q.cfg.numResults) {
          PollFromHandsOut(q, rest, if count.Some? then Some(count.value + 1) else None, now);
        }
      case _ => PollFromHandsOut(q, rest, count, now);
    }
  }

  /** Polling an unfinished query stops for capacity only when as many peers are waited for as the
      stage allows; below that it hands out the closest peer not yet contacted, if there is one,
      unless it finishes. */
  lemma PollHandsOut(q: Query, now: nat)
    requires !q.progress.Finished?
    requires q.numWaiting < if q.progress.Stalled? then q.cfg.numResults else q.cfg.parallelism
    ensures var r := Poll(q, now).1;
            && !r.AtCapacity?
            && (r.WaitingForPeers? ==> forall k :: k in q.peers ==> !q.peers[k].NotContacted?)
            && (r.Contact? ==> r.peer in q.peers && q.peers[r.peer].NotContacted?
                               && forall k :: k in q.peers && q.peers[k].NotContacted? ==> r.peer <= k)
  {
    hide PollFrom;
    PollFromHandsOut(q, InOrder(q.peers.Keys), Some(0), now);
    var r := Poll(q, now).1;
    if r.Contact? {
      PollFromChanges(q, InOrder(q.peers.Keys), Some(0), false, now, r.peer);
    }
  }

  lemma {:induction false} PollFromFinishes(q: Query, keys: seq<nat>, count: nat, full: bool, now: nat, d: nat)
    requires Visited(q, keys, Some(count)) && Counted(q) && count < q.cfg.numResults
    requires |SucceededBelow(q.peers, d)| >= q.cfg.numResults && forall k: nat :: k < d ==> !Pending(q.peers, k)
    ensures PollFrom(q, keys, Some(count), full, now).1.Done?
    decreases |keys|
  {
    hide SucceededBelow;
    if keys == [] {
      assert forall k :: k in q.peers ==> k !in WaitingPeers(q.peers);
      assert WaitingPeers(q.peers) == {};
    } else {
      var k, rest := keys[0], keys[1..];
      if k >= d {
        CountedBelow(q, keys, count, d);
        assert false;
      }
      assert k in keys && !Pending(q.peers, k);
      var c := if q.peers[k].Succeeded? then count + 1 else count;
      if c < q.cfg.numResults {
        VisitedNext(q, keys, Some(count), q, Some(c));
        PollFromFinishes(q, rest, c, full, now, d);
      }
    }
  }

  lemma CountedBelow(q: Query, keys: seq<nat>, count: nat, d: nat)
    requires Visited(q, keys, Some(count)) && keys != [] && keys[0] >= d
    ensures |SucceededBelow(q.peers, d)| <= count
  {
    SubsetSize(SucceededBelow(q.peers, d), SucceededBelow(q.peers, keys[0]));
  }

  /** In every run a poll finishes the query once as many peers closer than some `d` have answered as
      results are asked for, and none closer than `d` is yet to be contacted or heard from. */
  lemma FinishesOnceEnough(x: Execution, now: nat, d: nat)
    requires !AtEnd(x).progress.Finished?
    requires |set e | e in AnsweredPeers(x) && e < d| >= x.cfg.numResults
    requires forall k: nat :: k < d ==> !Pending(AtEnd(x).peers, k)
    ensures Poll(AtEnd(x), now).1.Done?
  {
    hide After, PollFrom, AnsweredPeers, InOrder;
    var q := AtEnd(x);
    var keys := InOrder(q.peers.Keys);
    RunInvariant(x.cfg, x.known, x.events);
    AnsweredPeersExactly(x);
    assert (set e | e in AnsweredPeers(x) && e < d) == SucceededBelow(q.peers, d);
    if x.cfg.numResults == 0 {
      NoResultsNoPeers(x.cfg, x.known, x.events);
      assert WaitingPeers(q.peers) == {};
      assert q.peers.Keys == {};
      NoKeys();
      NobodyToVisit(q, keys, now);
    } else {
      FirstVisited(q, keys);
      PollFromFinishes(q, keys, 0, AtCapacityNow(q), now, d);
    }
  }

  lemma NoKeys()
    ensures InOrder({}) == []
  {
  }

  lemma NobodyToVisit(q: Query, keys: seq<nat>, now: nat)
    requires keys == [] && q.numWaiting == 0
    ensures PollFrom(q, keys, Some(0), AtCapacityNow(q), now).1.Done?
  {
  }

  lemma FirstVisited(q: Query, keys: seq<nat>)
    requires Ascending(keys) && forall k :: k in keys <==> k in q.peers
    ensures Visited(q, keys, Some(0))
  {
    if keys != [] {
      assert forall k :: k in q.peers ==> keys[0] <= k;
      assert SucceededBelow(q.peers, keys[0]) == {};
    }
  }
}
