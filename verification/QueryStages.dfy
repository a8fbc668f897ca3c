/** The stages of a FINDNODES query: what counts as progress, when the query is stalled, and when
    it can get stuck. */
module QueryStages {
  import opened FindNodeQuery
  import opened Wrappers

  // --- One answer ---

  ghost predicate CloserThanAll(peers: Peers, r: nat)
  {
    forall d :: d in peers ==> r < d
  }

  /** Progress as the comment on `on_success` describes it: some reported peer is closer than any
      seen so far, or fewer than `numResults` peers are known and some reported peer is new. */
  ghost predicate DocumentedProgress(q: Query, reported: seq<nat>)
  {
    || (exists r :: r in reported && CloserThanAll(q.peers, r))
    || (|q.peers| < q.cfg.numResults && exists r :: r in reported && r !in q.peers)
  }

  /** When what the loop computes is what the comment says. */
  ghost predicate ProgressAgrees(q: Query, reported: seq<nat>)
  {
    || reported == []
    || var last := reported[|reported| - 1];
       if |q.peers| < q.cfg.numResults then exists r :: r in reported && r !in q.peers
       else if exists r :: r in reported && CloserThanAll(q.peers, r) then forall r :: r in reported ==> last <= r
       else exists d :: d in q.peers && d < last
  }

  /** The comment's rule and the code's agree on an answer exactly under `ProgressAgrees`. */
  lemma ProgressAsDocumented(q: Query, reported: seq<nat>)
    ensures (MadeProgress(q, reported) <==> DocumentedProgress(q, reported)) <==> ProgressAgrees(q, reported)
  {
    hide MadeProgress, Incorporate;
    if reported == [] {
      NothingReported(q);
    } else {
      LastDecides(q, reported);
      var last := reported[|reported| - 1];
      assert last in reported;
      if |q.peers| >= q.cfg.numResults {
        if r :| r in reported && CloserThanAll(q.peers, r) {
          assert CloserThanAll(q.peers, last) || r < last;
        } else {
          if forall d :: d in q.peers ==> last <= d {
            NoneCloser(q.peers, reported, last);
          }
        }
      }
    }
  }

  lemma NothingReported(q: Query)
    ensures !MadeProgress(q, []) && !DocumentedProgress(q, [])
  {
  }

  lemma LastDecides(q: Query, reported: seq<nat>)
    requires reported != []
    ensures var last := reported[|reported| - 1];
            MadeProgress(q, reported) <==>
            || |q.peers| < q.cfg.numResults
            || ((forall r :: r in reported ==> last <= r) && forall d :: d in q.peers ==> last <= d)
  {
    var all := Incorporate(q.peers, reported);
    assert forall d :: d in all <==> d in reported || d in q.peers;
  }

  lemma NoneCloser(peers: Peers, reported: seq<nat>, last: nat)
    requires forall r :: r in reported ==> !CloserThanAll(peers, r)
    requires forall d :: d in peers ==> last <= d
    ensures forall r :: r in reported ==> last <= r
  {
    forall r | r in reported ensures last <= r {
      var d :| d in peers && d <= r;
    }
  }

  // --- Runs ---

  datatype Execution = Execution(cfg: Config, known: seq<nat>, events: seq<Event>)

  /** The query just before event `i`. */
  function Before(x: Execution, i: nat): Query
    requires i <= |x.events|
  {
    After(x.cfg, x.known, x.events[..i]).query
  }

  function Upto(x: Execution, i: nat): Execution
    requires i <= |x.events|
  {
    x.(events := x.events[..i])
  }

  function AtEnd(x: Execution): Query
  {
    After(x.cfg, x.known, x.events).query
  }

  /** Event `i` is an answer that the query takes. */
  ghost predicate Counts(x: Execution, i: nat)
  {
    && i < |x.events| && x.events[i].Answer?
    && !Before(x, i).progress.Finished? && Awaited(Before(x, i), x.events[i].peer)
  }

  type Rule = (Query, seq<nat>) -> bool

  /** Event `i` is such an answer, and brings progress by the given rule. */
  ghost predicate Fruitful(rule: Rule, x: Execution, i: nat)
  {
    Counts(x, i) && rule(Settle(Before(x, i), x.events[i].peer, Succeeded), x.events[i].reported)
  }

  /** The answers after which, themselves included, none brought progress. */
  ghost function Fruitless(rule: Rule, x: Execution): set<nat>
  {
    set i: nat | i < |x.events| && Counts(x, i) && NoneFrom(rule, x, i)
  }

  ghost predicate NoneFrom(rule: Rule, x: Execution, i: nat)
  {
    forall j: nat :: i <= j < |x.events| ==> !Fruitful(rule, x, j)
  }

  function Stage(cfg: Config, fruitless: nat): Progress
  {
    if cfg.parallelism > 0 && fruitless >= cfg.parallelism then Stalled else Iterating(fruitless)
  }

  lemma SamePast(rule: Rule, x: Execution, n: nat, i: nat)
    requires i < n <= |x.events|
    ensures Counts(Upto(x, n), i) <==> Counts(x, i)
    ensures Fruitful(rule, Upto(x, n), i) <==> Fruitful(rule, x, i)
  {
    assert x.events[..n][..i] == x.events[..i];
  }

  /** One more event. */
  lemma FruitlessNext(rule: Rule, x: Execution)
    requires x.events != []
    ensures var n := |x.events| - 1;
            Fruitless(rule, x) ==
            if !Counts(x, n) then Fruitless(rule, Upto(x, n))
            else if Fruitful(rule, x, n) then {}
            else Fruitless(rule, Upto(x, n)) + {n}
  {
    hide Counts, Fruitful;
    var n := |x.events| - 1;
    var y := Upto(x, n);
    forall i: nat | i < n
      ensures Counts(y, i) <==> Counts(x, i)
      ensures Fruitful(rule, y, i) <==> Fruitful(rule, x, i)
    {
      SamePast(rule, x, n, i);
    }
    FruitfulCounts(rule, x, n);
    forall i: nat | i < n ensures NoneFrom(rule, x, i) <==> NoneFrom(rule, y, i) && !Fruitful(rule, x, n) {}
  }

  lemma FruitfulCounts(rule: Rule, x: Execution, i: nat)
    ensures Fruitful(rule, x, i) ==> Counts(x, i)
  {
  }

  /** Without parallelism nobody is ever asked, so no answer ever counts. */
  lemma {:induction false} NobodyAsked(cfg: Config, known: seq<nat>, events: seq<Event>)
    requires cfg.parallelism == 0
    ensures var r := After(cfg, known, events);
            && r.contacted == []
            && (r.query.progress.Finished? || r.query.progress == Iterating(0))
            && forall d :: !Awaited(r.query, d)
    decreases |events|
  {
    hide PollFrom, MadeProgress, Incorporate;
    RunInvariant(cfg, known, events);
    if events != [] {
      var n := |events| - 1;
      NobodyAsked(cfg, known, events[..n]);
      var q := After(cfg, known, events[..n]).query;
      if events[n].PollAt? && !q.progress.Finished? {
        RunInvariant(cfg, known, events[..n]);
        PollFromOutcome(q, InOrder(q.peers.Keys), Some(0), AtCapacityNow(q), events[n].now);
      }
    }
    var r := After(cfg, known, events);
    assert Contacted(r.query.peers) == {};
    forall d ensures !Awaited(r.query, d) {
      assert d !in Contacted(r.query.peers);
    }
  }

  /** In every run an unfinished query is stalled exactly when its last answers, at least as many as
      the parallelism, brought no progress; otherwise it counts them. */
  lemma {:induction false} StalledAfterFruitlessAnswers(x: Execution)
    ensures !AtEnd(x).progress.Finished? ==>
              AtEnd(x).progress == Stage(x.cfg, |Fruitless(MadeProgress, x)|)
    decreases |x.events|
  {
    hide PollFrom, MadeProgress, Incorporate, Fruitless;
    if x.events == [] {
      NoAnswers(MadeProgress, x);
    } else {
      var n := |x.events| - 1;
      StalledAfterFruitlessAnswers(Upto(x, n));
      FruitlessNext(MadeProgress, x);
      RunInvariant(x.cfg, x.known, x.events[..n]);
      if x.cfg.parallelism == 0 {
        NobodyAsked(x.cfg, x.known, x.events[..n]);
      }
      var q := Before(x, n);
      match x.events[n]
      case PollAt(now) =>
        if !q.progress.Finished? {
          PollFromOutcome(q, InOrder(q.peers.Keys), Some(0), AtCapacityNow(q), now);
        }
      case Failure(d) =>
      case Answer(d, reported) =>
        FruitlessBefore(MadeProgress, x, n);
    }
  }

  lemma NoAnswers(rule: Rule, x: Execution)
    requires x.events == []
    ensures Fruitless(rule, x) == {}
  {
  }

  lemma FruitlessBefore(rule: Rule, x: Execution, n: nat)
    requires n <= |x.events|
    ensures n !in Fruitless(rule, Upto(x, n))
  {
  }

  // --- The documented stages ---

  ghost predicate AnswerAgrees(x: Execution, i: nat)
    requires Counts(x, i)
  {
    ProgressAgrees(Settle(Before(x, i), x.events[i].peer, Succeeded), x.events[i].reported)
  }

  /** After `k` events the query, unless finished, is in the stage that the comments prescribe. */
  ghost predicate StageAsDocumented(x: Execution, k: nat)
    requires k <= |x.events|
  {
    !Before(x, k).progress.Finished? ==>
      Before(x, k).progress == Stage(x.cfg, |Fruitless(DocumentedProgress, Upto(x, k))|)
  }

  ghost predicate AllAsDocumented(x: Execution)
  {
    forall k: nat :: k <= |x.events| ==> StageAsDocumented(x, k)
  }

  ghost predicate AllAgree(x: Execution)
  {
    forall i: nat :: Counts(x, i) ==> AnswerAgrees(x, i)
  }

  lemma FruitfulAgrees(x: Execution, i: nat)
    requires Counts(x, i)
    ensures (Fruitful(MadeProgress, x, i) <==> Fruitful(DocumentedProgress, x, i)) <==> AnswerAgrees(x, i)
  {
    hide After, MadeProgress, DocumentedProgress, ProgressAgrees;
    ProgressAsDocumented(Settle(Before(x, i), x.events[i].peer, Succeeded), x.events[i].reported);
  }

  lemma SameFruitless(x: Execution)
    requires AllAgree(x)
    ensures Fruitless(MadeProgress, x) == Fruitless(DocumentedProgress, x)
  {
    hide Counts, Fruitful, AnswerAgrees, MadeProgress, DocumentedProgress;
    forall i: nat ensures Fruitful(MadeProgress, x, i) <==> Fruitful(DocumentedProgress, x, i) {
      FruitfulCounts(MadeProgress, x, i);
      FruitfulCounts(DocumentedProgress, x, i);
      if Counts(x, i) {
        FruitfulAgrees(x, i);
      }
    }
  }

  /** The last event keeps the documented stage exactly if it is no answer on which the rules differ. */
  lemma LastStage(x: Execution)
    requires x.events != [] && AllAgree(Upto(x, |x.events| - 1))
    ensures var n := |x.events| - 1;
            StageAsDocumented(x, n + 1) <==> (Counts(x, n) ==> AnswerAgrees(x, n))
  {
    hide AnswerAgrees, MadeProgress, DocumentedProgress, Fruitless, Fruitful, PollFrom, Incorporate, AllAgree;
    var n := |x.events| - 1;
    assert x.events[..n + 1] == x.events;
    SameFruitless(Upto(x, n));
    FruitlessNext(MadeProgress, x);
    FruitlessNext(DocumentedProgress, x);
    FruitlessBefore(MadeProgress, x, n);
    StalledAfterFruitlessAnswers(x);
    if Counts(x, n) {
      FruitfulAgrees(x, n);
      if x.cfg.parallelism == 0 {
        NobodyAsked(x.cfg, x.known, x.events[..n]);
      }
    }
  }

  /** A query is in the documented stage throughout a run exactly when every answer in it satisfies
      `ProgressAgrees`: the first one that does not puts the query in another stage at once. */
  lemma {:induction false} StagesAreDocumented(x: Execution)
    ensures AllAsDocumented(x) <==> AllAgree(x)
    decreases |x.events|
  {
    hide Counts, AnswerAgrees, StageAsDocumented;
    if x.events == [] {
      NothingHappened(x);
    } else {
      var n := |x.events| - 1;
      var y := Upto(x, n);
      StagesAreDocumented(y);
      forall i: nat | i < n ensures Counts(y, i) <==> Counts(x, i) {
        SamePast(MadeProgress, x, n, i);
      }
      forall i: nat | i < n && Counts(x, i) ensures AnswerAgrees(y, i) <==> AnswerAgrees(x, i) {
        SameAnswer(x, n, i);
      }
      forall k: nat | k <= n ensures StageAsDocumented(y, k) <==> StageAsDocumented(x, k) {
        SameStage(x, n, k);
      }
      CountsWithin(x);
      CountsWithin(y);
      if AllAgree(y) {
        LastStage(x);
      }
    }
  }

  lemma NothingHappened(x: Execution)
    requires x.events == []
    ensures StageAsDocumented(x, 0)
    ensures forall i: nat :: !Counts(x, i)
  {
    assert x.events[..0] == [];
  }

  lemma CountsWithin(x: Execution)
    ensures forall i: nat :: Counts(x, i) ==> i < |x.events|
  {
  }

  lemma SameAnswer(x: Execution, n: nat, i: nat)
    requires i < n <= |x.events| && Counts(x, i) && Counts(Upto(x, n), i)
    ensures AnswerAgrees(Upto(x, n), i) <==> AnswerAgrees(x, i)
  {
    assert x.events[..n][..i] == x.events[..i];
  }

  lemma SameStage(x: Execution, n: nat, k: nat)
    requires k <= n <= |x.events|
    ensures StageAsDocumented(Upto(x, n), k) <==> StageAsDocumented(x, k)
  {
    assert x.events[..n][..k] == x.events[..k];
    assert Upto(Upto(x, n), k) == Upto(x, k);
  }

  // --- Where the comment and the code part ---

  /** Asking the closest known peer, and its answer. */
  function AskAndAnswer(cfg: Config, known: seq<nat>, d: nat, reported: seq<nat>): Execution
  {
    Execution(cfg, known, [PollAt(0), Answer(d, reported)])
  }

  /** The query as that answer finds it, the answering peer already marked. */
  function Answering(cfg: Config, known: seq<nat>, d: nat): Query
  {
    Query(cfg, (map k | k in known :: NotContacted)[d := Succeeded], Iterating(0), 0)
  }

  lemma AskedClosest(cfg: Config, known: seq<nat>, d: nat, reported: seq<nat>)
    requires cfg.parallelism > 0 && |known| <= cfg.numResults
    requires d in known && forall k :: k in known ==> d <= k
    ensures var x, q := AskAndAnswer(cfg, known, d, reported), Answering(cfg, known, d);
            && Counts(x, 1)
            && AtEnd(x).progress == NextProgress(cfg, Iterating(0), MadeProgress(q, reported))
            && (Fruitful(DocumentedProgress, x, 1) <==> DocumentedProgress(q, reported))
  {
    hide MadeProgress, DocumentedProgress, Incorporate;
    var x := AskAndAnswer(cfg, known, d, reported);
    var start := Start(cfg, known).query;
    var keys := InOrder(start.peers.Keys);
    assert keys[0] == d by {
      assert d in start.peers && d in keys;
      assert keys[0] in start.peers;
      var i :| 0 <= i < |keys| && keys[i] == d;
    }
    assert x.events[..1] == [PollAt(0)] && x.events[..1][..0] == [];
    assert After(cfg, known, []) == Start(cfg, known);
    assert After(cfg, known, x.events[..1]) == Step(Start(cfg, known), PollAt(0));
    assert Settle(Before(x, 1), d, Succeeded).peers == Answering(cfg, known, d).peers;
  }

  /** The three ways in which they differ: a closer peer that is not the last one reported is missed;
      the closest peer counts as progress although it was known; and so does, while few peers are
      known, any other known peer. */
  lemma ProgressExamples()
    ensures var x := AskAndAnswer(Config(1, 1, 9), [5], 5, [3, 9]);
            AtEnd(x).progress == Stalled && Fruitful(DocumentedProgress, x, 1)
    ensures var x := AskAndAnswer(Config(1, 1, 9), [5], 5, [5]);
            Counts(x, 1) && AtEnd(x).progress == Iterating(0) && !Fruitful(DocumentedProgress, x, 1)
    ensures var x := AskAndAnswer(Config(1, 3, 9), [3, 5], 3, [5]);
            Counts(x, 1) && AtEnd(x).progress == Iterating(0) && !Fruitful(DocumentedProgress, x, 1)
  {
    hide After, MadeProgress, DocumentedProgress, Answering, Counts, Fruitful;
    AskedClosest(Config(1, 1, 9), [5], 5, [3, 9]);
    AskedClosest(Config(1, 1, 9), [5], 5, [5]);
    AskedClosest(Config(1, 3, 9), [3, 5], 3, [5]);
    MissedCloserPeer();
    KnownClosestPeer();
    KnownOtherPeer();
  }

  lemma MissedCloserPeer()
    ensures var q := Answering(Config(1, 1, 9), [5], 5);
            !MadeProgress(q, [3, 9]) && DocumentedProgress(q, [3, 9])
  {
    var q := Answering(Config(1, 1, 9), [5], 5);
    assert q.peers == map[5 := Succeeded];
    assert 3 in Incorporate(q.peers, [3, 9]);
    assert 3 in [3, 9] && CloserThanAll(q.peers, 3);
  }

  lemma KnownClosestPeer()
    ensures var q := Answering(Config(1, 1, 9), [5], 5);
            MadeProgress(q, [5]) && !DocumentedProgress(q, [5])
  {
    assert Answering(Config(1, 1, 9), [5], 5).peers == map[5 := Succeeded];
  }

  lemma KnownOtherPeer()
    ensures var q := Answering(Config(1, 3, 9), [3, 5], 3);
            MadeProgress(q, [5]) && !DocumentedProgress(q, [5])
  {
    var q := Answering(Config(1, 3, 9), [3, 5], 3);
    assert q.peers == map[3 := Succeeded, 5 := NotContacted];
    assert 5 in q.peers && 3 in q.peers;
    assert !CloserThanAll(q.peers, 5);
  }

  // --- Getting stuck ---

  lemma {:induction false} PollFromAdvances(q: Query, keys: seq<nat>, count: Option<nat>, now: nat)
    requires forall d :: d in keys ==> d in q.peers && !q.peers[d].Waiting?
    requires q.numWaiting == 0
    ensures var r := PollFrom(q, keys, count, false, now).1; r.Contact? || r.Done?
    decreases |keys|
  {
    if keys != [] {
      assert keys[0] in keys;
      if q.peers[keys[0]].Succeeded? {
        PollFromAdvances(q, keys[1..], if count.Some? then Some(count.value + 1) else None, now);
      } else if !q.peers[keys[0]].NotContacted? {
        PollFromAdvances(q, keys[1..], count, now);
      }
    }
  }

  /** A query that wants no results knows no peers. */
  lemma {:induction false} NoResultsNoPeers(cfg: Config, known: seq<nat>, events: seq<Event>)
    requires cfg.numResults == 0
    ensures After(cfg, known, events).query.peers == map[]
    decreases |events|
  {
    if events != [] {
      NoResultsNoPeers(cfg, known, events[..|events| - 1]);
    }
  }

  /** In every run, when nobody is waited for, polling an unfinished query hands out a peer or
      finishes, exactly if the query has some parallelism or knows nobody. */
  lemma NeverStuck(x: Execution, now: nat)
    requires !AtEnd(x).progress.Finished? && AtEnd(x).numWaiting == 0
    ensures var r := Poll(AtEnd(x), now).1;
            (r.Contact? || r.Done?) <==> x.cfg.parallelism > 0 || AtEnd(x).peers == map[]
  {
    hide After, PollFrom, InOrder;
    RunInvariant(x.cfg, x.known, x.events);
    var q := AtEnd(x);
    var keys := InOrder(q.peers.Keys);
    forall d | d in keys ensures !q.peers[d].Waiting? {
      assert d !in WaitingPeers(q.peers);
    }
    if x.cfg.numResults == 0 {
      NoResultsNoPeers(x.cfg, x.known, x.events);
    }
    if x.cfg.parallelism > 0 && !AtCapacityNow(q) {
      PollFromAdvances(q, keys, Some(0), now);
    } else {
      if x.cfg.parallelism == 0 {
        NobodyAsked(x.cfg, x.known, x.events);
        assert Contacted(q.peers) == {};
        forall d | d in q.peers ensures q.peers[d].NotContacted? {
          assert d !in Contacted(q.peers);
        }
      }
      AtFirstPeer(q, keys, now);
    }
  }

  lemma AtFirstPeer(q: Query, keys: seq<nat>, now: nat)
    requires forall d :: d in keys <==> d in q.peers
    requires q.numWaiting == 0
    ensures q.peers == map[] ==> PollFrom(q, keys, Some(0), true, now).1.Done?
    ensures q.peers != map[] && (forall d :: d in q.peers ==> q.peers[d].NotContacted?) ==>
              PollFrom(q, keys, Some(0), true, now).1.AtCapacity?
  {
    if keys == [] {
      assert q.peers == map[];
    } else {
      assert keys[0] in keys;
    }
  }
}
