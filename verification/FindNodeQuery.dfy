/** The iterative FINDNODES query.

    A peer is identified by its distance to the target, which is injective, and the ordered map
    of peers is a map from distance to state, visited in increasing order. */
module FindNodeQuery {
  import opened Wrappers

  datatype PeerState = NotContacted | Waiting(timeout: nat) | Unresponsive | Failed | Succeeded
  datatype Progress = Iterating(noProgress: nat) | Stalled | Finished

  datatype Config = Config(parallelism: nat, numResults: nat, peerTimeout: nat)
  type Peers = map<nat, PeerState>

  datatype Query = Query(cfg: Config, peers: Peers, progress: Progress, numWaiting: nat)

  datatype Polled = Contact(peer: nat) | WaitingForPeers | AtCapacity | Done

  ghost function WaitingPeers(peers: Peers): set<nat>
  {
    set d | d in peers && peers[d].Waiting?
  }

  /** Peers that were handed out to be contacted. */
  ghost function Contacted(peers: Peers): set<nat>
  {
    set d | d in peers && !peers[d].NotContacted?
  }

  ghost predicate Pending(peers: Peers, d: nat)
  {
    d in peers && (peers[d].NotContacted? || peers[d].Waiting?)
  }

  // --- Visiting peers in order ---

  ghost predicate Ascending(s: seq<nat>)
  {
    forall i, j :: 0 <= i < j < |s| ==> s[i] < s[j]
  }

  ghost predicate IsMin(s: set<nat>, m: nat)
  {
    m in s && forall d :: d in s ==> m <= d
  }

  lemma {:induction false} MinExists(s: set<nat>)
    requires s != {}
    ensures exists m :: IsMin(s, m)
  {
    var x :| x in s;
    if s == {x} {
      assert IsMin(s, x);
    } else {
      MinExists(s - {x});
      var rest :| IsMin(s - {x}, rest);
      forall d | d in s ensures (if rest < x then rest else x) <= d {
        assert d == x || d in s - {x};
      }
      assert IsMin(s, if rest < x then rest else x);
    }
  }

  function Smallest(s: set<nat>): (m: nat)
    requires s != {}
    ensures IsMin(s, m)
  {
    MinExists(s);
    assert exists m :: m in s && forall d :: d in s ==> m <= d by {
      var m :| IsMin(s, m);
    }
    var m :| m in s && forall d :: d in s ==> m <= d;
    m
  }

  /** The keys of the ordered map, smallest first. */
  function InOrder(s: set<nat>): (keys: seq<nat>)
    ensures Ascending(keys)
    ensures forall d :: d in keys <==> d in s
    decreases |s|
  {
    if s == {} then []
    else
      var m := Smallest(s);
      [m] + InOrder(s - {m})
  }

  // --- Callbacks ---

  function AtCapacityNow(q: Query): bool
  {
    match q.progress
    case Stalled => q.numWaiting >= q.cfg.numResults
    case Iterating(_) => q.numWaiting >= q.cfg.parallelism
    case Finished => true
  }

  /** Marks a waiting or unresponsive peer as settled. */
  function Settle(q: Query, d: nat, state: PeerState): Query
    requires d in q.peers
  {
    if q.peers[d].Waiting? && q.numWaiting > 0
    then q.(peers := q.peers[d := state], numWaiting := q.numWaiting - 1)
    else q.(peers := q.peers[d := state])
  }

  predicate Awaited(q: Query, d: nat)
  {
    d in q.peers && (q.peers[d].Waiting? || q.peers[d].Unresponsive?)
  }

  function OnFailure(q: Query, d: nat): Query
  {
    if q.progress.Finished? || !Awaited(q, d) then q else Settle(q, d, Failed)
  }

  /** Reported peers are added unless already known. */
  function Incorporate(peers: Peers, reported: seq<nat>): Peers
  {
    (map d | d in reported :: NotContacted) + peers
  }

  /** As the loop leaves it: decided by the last peer reported, and false if there is none. */
  predicate MadeProgress(q: Query, reported: seq<nat>)
  {
    reported != [] &&
    var last := reported[|reported| - 1];
    || (forall d :: d in Incorporate(q.peers, reported) ==> last <= d)
    || |q.peers| < q.cfg.numResults
  }

  function NextProgress(cfg: Config, p: Progress, progress: bool): Progress
  {
    match p
    case Iterating(n) =>
      var n' := if progress then 0 else n + 1;
      if n' >= cfg.parallelism then Stalled else Iterating(n')
    case Stalled => if progress then Iterating(0) else Stalled
    case Finished => Finished
  }

  function OnSuccess(q: Query, d: nat, reported: seq<nat>): Query
  {
    if q.progress.Finished? || !Awaited(q, d) then q
    else
      var s := Settle(q, d, Succeeded);
      s.(peers := Incorporate(s.peers, reported),
         progress := NextProgress(q.cfg, q.progress, MadeProgress(s, reported)))
  }

  // --- Polling ---

  /** `poll` from the peers `keys` on; `count` is `result_counter`. */
  function PollFrom(q: Query, keys: seq<nat>, count: Option<nat>, full: bool, now: nat): (Query, Polled)
    requires forall d :: d in keys ==> d in q.peers
    decreases |keys|
  {
    if keys == [] then
      if q.numWaiting > 0 then (q, WaitingForPeers) else (q.(progress := Finished), Done)
    else
      var d, rest := keys[0], keys[1..];
      match q.peers[d]
      case NotContacted =>
        if full then (q, AtCapacity)
        else (q.(peers := q.peers[d := Waiting(now + q.cfg.peerTimeout)], numWaiting := q.numWaiting + 1), Contact(d))
      case Waiting(t) =>
        if now >= t then PollFrom(Settle(q, d, Unresponsive), rest, count, full, now)
        else if full then (q, AtCapacity)
        else PollFrom(q, rest, None, full, now)
      case Succeeded =>
        if count.Some? && count.value + 1 >= q.cfg.numResults then (q.(progress := Finished), Done)
        else PollFrom(q, rest, if count.Some? then Some(count.value + 1) else None, full, now)
      case _ => PollFrom(q, rest, count, full, now)
  }

  function Poll(q: Query, now: nat): (Query, Polled)
  {
    if q.progress.Finished? then (q, Done)
    else PollFrom(q, InOrder(q.peers.Keys), Some(0), AtCapacityNow(q), now)
  }

  function Answered(peers: Peers): set<nat>
  {
    set d | d in peers && peers[d].Succeeded?
  }

  /** `into_result`: the closest peers that answered. */
  function IntoResult(q: Query): seq<nat>
  {
    var ok := InOrder(Answered(q.peers));
    if |ok| <= q.cfg.numResults then ok else ok[..q.cfg.numResults]
  }

  // --- Counting the peers waited for ---

  ghost predicate Counted(q: Query)
  {
    q.numWaiting == |WaitingPeers(q.peers)|
  }

  function Limit(cfg: Config): nat
  {
    if cfg.parallelism >= cfg.numResults then cfg.parallelism else cfg.numResults
  }

  lemma WaitingUpdate(peers: Peers, d: nat, state: PeerState)
    ensures WaitingPeers(peers[d := state]) ==
            if state.Waiting? then WaitingPeers(peers) + {d} else WaitingPeers(peers) - {d}
    ensures !state.NotContacted? ==> Contacted(peers[d := state]) == Contacted(peers) + {d}
  {
  }

  lemma SettleCounts(q: Query, d: nat, state: PeerState)
    requires Counted(q) && Awaited(q, d) && !state.Waiting? && !state.NotContacted?
    ensures Counted(Settle(q, d, state))
    ensures q.peers[d].Waiting? ==> q.numWaiting > 0
    ensures Contacted(Settle(q, d, state).peers) == Contacted(q.peers)
    ensures Settle(q, d, state).numWaiting <= q.numWaiting
  {
    WaitingUpdate(q.peers, d, state);
    if q.peers[d].Waiting? {
      assert d in WaitingPeers(q.peers);
    }
  }

  lemma IncorporateCounts(peers: Peers, reported: seq<nat>)
    ensures WaitingPeers(Incorporate(peers, reported)) == WaitingPeers(peers)
    ensures Contacted(Incorporate(peers, reported)) == Contacted(peers)
  {
  }

  lemma {:induction false} PollFromCounts(q: Query, keys: seq<nat>, count: Option<nat>, full: bool, now: nat)
    requires forall d :: d in keys ==> d in q.peers
    requires Counted(q)
    ensures var (q', r) := PollFrom(q, keys, count, full, now);
            && Counted(q') && q'.cfg == q.cfg
            && q'.numWaiting <= q.numWaiting + 1
            && (full ==> q'.numWaiting <= q.numWaiting)
            && match r
               case Contact(d) => d !in Contacted(q.peers) && Contacted(q'.peers) == Contacted(q.peers) + {d}
               case _ => Contacted(q'.peers) == Contacted(q.peers) && q'.numWaiting <= q.numWaiting
    decreases |keys|
  {
    hide WaitingPeers, Contacted;
    if keys != [] {
      var d, rest := keys[0], keys[1..];
      assert d in keys;
      match q.peers[d]
      case NotContacted => ContactCounts(q, d, Waiting(now + q.cfg.peerTimeout));
      case Waiting(t) =>
        if now >= t {
          SettleCounts(q, d, Unresponsive);
          PollFromCounts(Settle(q, d, Unresponsive), rest, count, full, now);
        } else if !full {
          PollFromCounts(q, rest, None, full, now);
        }
      case Succeeded =>
        PollFromCounts(q, rest, if count.Some? then Some(count.value + 1) else None, full, now);
      case _ => PollFromCounts(q, rest, count, full, now);
    }
  }

  lemma ContactCounts(q: Query, d: nat, state: PeerState)
    requires Counted(q) && d in q.peers && q.peers[d].NotContacted? && state.Waiting?
    ensures |WaitingPeers(q.peers[d := state])| == q.numWaiting + 1
    ensures d !in Contacted(q.peers) && Contacted(q.peers[d := state]) == Contacted(q.peers) + {d}
  {
    WaitingUpdate(q.peers, d, state);
  }

  // --- Runs ---

  datatype Event = PollAt(now: nat) | Answer(peer: nat, reported: seq<nat>) | Failure(peer: nat)

  /** A query together with the peers it has asked to contact, in order. */
  datatype Run = Run(query: Query, contacted: seq<nat>)

  function Start(cfg: Config, known: seq<nat>): Run
  {
    var first := if |known| <= cfg.numResults then known else known[..cfg.numResults];
    Run(Query(cfg, map d | d in first :: NotContacted, Iterating(0), 0), [])
  }

  function Step(r: Run, e: Event): Run
  {
    match e
    case Answer(d, reported) => r.(query := OnSuccess(r.query, d, reported))
    case Failure(d) => r.(query := OnFailure(r.query, d))
    case PollAt(now) =>
      var (q, p) := Poll(r.query, now);
      r.(query := q, contacted := if p.Contact? then r.contacted + [p.peer] else r.contacted)
  }

  function After(cfg: Config, known: seq<nat>, events: seq<Event>): Run
  {
    if events == [] then Start(cfg, known)
    else Step(After(cfg, known, events[..|events| - 1]), events[|events| - 1])
  }

  ghost predicate Inv(cfg: Config, r: Run)
  {
    && r.query.cfg == cfg
    && Counted(r.query)
    && r.query.numWaiting <= Limit(cfg)
    && Contacted(r.query.peers) == (set d | d in r.contacted)
    && forall i, j :: 0 <= i < j < |r.contacted| ==> r.contacted[i] != r.contacted[j]
  }

  lemma PollKeeps(cfg: Config, r: Run, now: nat)
    requires Inv(cfg, r)
    ensures Inv(cfg, Step(r, PollAt(now)))
  {
    hide WaitingPeers, Contacted, InOrder, PollFrom;
    if !r.query.progress.Finished? {
      PollFromCounts(r.query, InOrder(r.query.peers.Keys), Some(0), AtCapacityNow(r.query), now);
      var (q, p) := Poll(r.query, now);
      if p.Contact? {
        assert forall d :: d in r.contacted + [p.peer] <==> d in r.contacted || d == p.peer;
      }
    }
  }

  lemma CallbackKeeps(cfg: Config, r: Run, e: Event)
    requires Inv(cfg, r) && !e.PollAt?
    ensures Inv(cfg, Step(r, e))
  {
    hide WaitingPeers, Contacted, MadeProgress, Incorporate;
    match e
    case Failure(d) =>
      if Awaited(r.query, d) {
        SettleCounts(r.query, d, Failed);
      }
    case Answer(d, reported) =>
      if Awaited(r.query, d) {
        SettleCounts(r.query, d, Succeeded);
        IncorporateCounts(Settle(r.query, d, Succeeded).peers, reported);
      }
  }

  lemma StartHolds(cfg: Config, known: seq<nat>)
    ensures Inv(cfg, Start(cfg, known))
  {
    var q := Start(cfg, known).query;
    assert WaitingPeers(q.peers) == {} && Contacted(q.peers) == {};
  }

  /** In every run: the counter is the number of peers waited for, so none of the assertions on it
      can fail; it never exceeds the larger of the parallelism and the number of results; and no
      peer is contacted twice. */
  lemma {:induction false} RunInvariant(cfg: Config, known: seq<nat>, events: seq<Event>)
    ensures Inv(cfg, After(cfg, known, events))
    decreases |events|
  {
    if events == [] {
      StartHolds(cfg, known);
    } else {
      var n := |events| - 1;
      RunInvariant(cfg, known, events[..n]);
      var r := After(cfg, known, events[..n]);
      if events[n].PollAt? {
        PollKeeps(cfg, r, events[n].now);
      } else {
        CallbackKeeps(cfg, r, events[n]);
      }
    }
  }

  /** Whenever a peer is handed out, fewer are being waited for than the stage allows: the
      parallelism while iterating, the number of results when stalled. */
  lemma ContactsWithinParallelism(q: Query, now: nat)
    requires Poll(q, now).1.Contact?
    ensures match q.progress
            case Iterating(_) => q.numWaiting < q.cfg.parallelism
            case Stalled => q.numWaiting < q.cfg.numResults
            case Finished => false
  {
    hide InOrder;
    if AtCapacityNow(q) && !q.progress.Finished? {
      PollFromOutcome(q, InOrder(q.peers.Keys), Some(0), true, now);
    }
  }

  lemma {:induction false} PollFromOutcome(q: Query, keys: seq<nat>, count: Option<nat>, full: bool, now: nat)
    requires forall d :: d in keys ==> d in q.peers
    ensures var (q', r) := PollFrom(q, keys, count, full, now);
            && (q'.progress.Finished? || q'.progress == q.progress)
            && (r.Done? ==> q'.progress.Finished?)
            && (full ==> !r.Contact?)
    decreases |keys|
  {
    if keys != [] {
      var d, rest := keys[0], keys[1..];
      match q.peers[d]
      case NotContacted =>
      case Waiting(t) =>
        if now >= t {
          PollFromOutcome(Settle(q, d, Unresponsive), rest, count, full, now);
        } else {
          PollFromOutcome(q, rest, None, full, now);
        }
      case Succeeded =>
        PollFromOutcome(q, rest, if count.Some? then Some(count.value + 1) else None, full, now);
      case _ => PollFromOutcome(q, rest, count, full, now);
    }
  }

  // --- The result of a finished query ---

  ghost function SucceededBelow(peers: Peers, d: nat): set<nat>
  {
    set s | s in peers && peers[s].Succeeded? && s < d
  }

  /** No peer that could still answer is closer than enough that have. */
  ghost predicate Settled(q: Query)
  {
    forall d :: Pending(q.peers, d) ==> |SucceededBelow(q.peers, d)| >= q.cfg.numResults
  }

  /** What `poll` knows when it reaches `keys`: the peers before have been visited; none of them is
      yet to be contacted; and while the counter runs, none is waited for and the counter says how
      many have answered. */
  ghost predicate Visited(q: Query, keys: seq<nat>, count: Option<nat>)
  {
    && (forall d :: d in keys ==> d in q.peers)
    && Ascending(keys)
    && (forall d, k :: d in q.peers && d !in keys && k in keys ==> d < k)
    && (forall d :: d in q.peers && d !in keys ==> !q.peers[d].NotContacted?)
    && (count.Some? ==> forall d :: d in q.peers && d !in keys ==> !q.peers[d].Waiting?)
    && (count.Some? && keys != [] ==> |SucceededBelow(q.peers, keys[0])| == count.value)
  }

  lemma {:induction false} PollFromSettles(q: Query, keys: seq<nat>, count: Option<nat>, full: bool, now: nat)
    requires Visited(q, keys, count) && Counted(q)
    ensures var (q', r) := PollFrom(q, keys, count, full, now);
            && (r.Done? ==> Settled(q'))
            && (q'.progress.Finished? ==> q.progress.Finished? || r.Done?)
    decreases |keys|
  {
    if keys == [] {
      if q.numWaiting == 0 {
        assert forall d :: d in q.peers ==> d !in WaitingPeers(q.peers);
      }
    } else {
      var d, rest := keys[0], keys[1..];
      assert d in keys;
      match q.peers[d]
      case NotContacted =>
      case Waiting(t) =>
        if now >= t {
          SettleCounts(q, d, Unresponsive);
          VisitedNext(q, keys, count, Settle(q, d, Unresponsive), count);
          PollFromSettles(Settle(q, d, Unresponsive), rest, count, full, now);
        } else if !full {
          VisitedNext(q, keys, count, q, None);
          PollFromSettles(q, rest, None, full, now);
        }
      case Succeeded =>
        if count.Some? && count.value + 1 >= q.cfg.numResults {
          EnoughAnswers(q, keys, count);
        } else {
          var count' := if count.Some? then Some(count.value + 1) else None;
          VisitedNext(q, keys, count, q, count');
          PollFromSettles(q, rest, count', full, now);
        }
      case _ =>
        VisitedNext(q, keys, count, q, count);
        PollFromSettles(q, rest, count, full, now);
    }
  }

  /** Moving past one peer. */
  lemma VisitedNext(q: Query, keys: seq<nat>, count: Option<nat>, q': Query, count': Option<nat>)
    requires keys != [] && Visited(q, keys, count)
    requires q'.peers.Keys == q.peers.Keys
    requires forall d :: d in q.peers && d != keys[0] ==> q'.peers[d] == q.peers[d]
    requires keys[0] in q.peers && !q'.peers[keys[0]].NotContacted?
    requires q'.peers[keys[0]].Succeeded? == q.peers[keys[0]].Succeeded?
    requires count'.Some? ==>
               && count.Some? && !q'.peers[keys[0]].Waiting?
               && count'.value == count.value + (if q.peers[keys[0]].Succeeded? then 1 else 0)
    ensures Visited(q', keys[1..], count')
  {
    var k, rest := keys[0], keys[1..];
    assert forall d :: d in keys <==> d == k || d in rest;
    if count'.Some? && rest != [] {
      assert rest[0] == keys[1];
      var below := SucceededBelow(q'.peers, rest[0]);
      forall d | d in rest ensures rest[0] <= d {
        var j :| 0 <= j < |rest| && rest[j] == d;
        assert d == keys[j + 1];
      }
      assert k in keys;
      forall d | d in q.peers && d < rest[0] ensures d <= k {
        if d != k {
          assert d !in keys;
          assert d < k;
        }
      }
      assert below == if q.peers[k].Succeeded? then SucceededBelow(q.peers, k) + {k} else SucceededBelow(q.peers, k);
    }
  }

  lemma EnoughAnswers(q: Query, keys: seq<nat>, count: Option<nat>)
    requires keys != [] && Visited(q, keys, count) && keys[0] in q.peers
    requires count.Some? && q.peers[keys[0]].Succeeded? && count.value + 1 >= q.cfg.numResults
    ensures Settled(q)
  {
    var k := keys[0];
    forall d | Pending(q.peers, d) ensures |SucceededBelow(q.peers, d)| >= q.cfg.numResults {
      assert d in keys;
      assert k < d;
      SubsetSize(SucceededBelow(q.peers, k) + {k}, SucceededBelow(q.peers, d));
    }
  }

  lemma {:induction false} SubsetSize(a: set<nat>, b: set<nat>)
    requires a <= b
    ensures |a| <= |b|
  {
    if a != {} {
      var x :| x in a;
      SubsetSize(a - {x}, b - {x});
    }
  }

  lemma PollSettles(q: Query, now: nat)
    requires Counted(q) && (q.progress.Finished? ==> Settled(q))
    ensures var (q', r) := Poll(q, now);
            && (r.Done? ==> q'.progress.Finished?)
            && (q'.progress.Finished? ==> r.Done? && Settled(q'))
  {
    hide PollFrom, WaitingPeers, Settled;
    if !q.progress.Finished? {
      var keys := InOrder(q.peers.Keys);
      assert Visited(q, keys, Some(0)) by {
        if keys != [] {
          assert forall d :: d in q.peers ==> keys[0] <= d;
          assert SucceededBelow(q.peers, keys[0]) == {};
        }
      }
      PollFromSettles(q, keys, Some(0), AtCapacityNow(q), now);
      PollFromOutcome(q, keys, Some(0), AtCapacityNow(q), now);
    }
  }

  lemma {:induction false} FinishedIsSettled(cfg: Config, known: seq<nat>, events: seq<Event>)
    ensures After(cfg, known, events).query.progress.Finished? ==> Settled(After(cfg, known, events).query)
    decreases |events|
  {
    hide Settled, PollFrom, MadeProgress, Incorporate;
    if events != [] {
      var n := |events| - 1;
      FinishedIsSettled(cfg, known, events[..n]);
      RunInvariant(cfg, known, events[..n]);
      if events[n].PollAt? {
        PollSettles(After(cfg, known, events[..n]).query, events[n].now);
      }
    }
  }

  /** When a query is finished, in whatever run, its result lists as many of the peers that answered
      as asked for, closest first, and no peer that has yet to be contacted or heard from is closer
      than one of them; if there are fewer than asked for, there is no such peer at all. */
  lemma FinishedResult(cfg: Config, known: seq<nat>, events: seq<Event>)
    ensures var q := After(cfg, known, events).query;
            q.progress.Finished? ==>
              var result := IntoResult(q);
              && Ascending(result)
              && |result| == Min(cfg.numResults, |Answered(q.peers)|)
              && (forall r :: r in result ==> r in Answered(q.peers))
              && (forall r, d :: r in result && d in Answered(q.peers) && d !in result ==> r < d)
              && (forall r, d: nat :: r in result && Pending(q.peers, d) ==> r < d)
              && (|result| < cfg.numResults ==> forall d: nat :: !Pending(q.peers, d))
  {
    var q := After(cfg, known, events).query;
    hide After, Settled;
    RunInvariant(cfg, known, events);
    FinishedIsSettled(cfg, known, events);
    if q.progress.Finished? {
      ResultIsClosest(q);
    }
  }

  lemma ResultIsClosest(q: Query)
    requires Settled(q)
    ensures var result := IntoResult(q);
            && Ascending(result)
            && |result| == Min(q.cfg.numResults, |Answered(q.peers)|)
            && (forall r :: r in result ==> r in Answered(q.peers))
            && (forall r, d :: r in result && d in Answered(q.peers) && d !in result ==> r < d)
            && (forall r, d: nat :: r in result && Pending(q.peers, d) ==> r < d)
            && (|result| < q.cfg.numResults ==> forall d: nat :: !Pending(q.peers, d))
  {
    hide InOrder;
    var ok := InOrder(Answered(q.peers));
    AscendingSize(ok);
    assert ToSet(ok) == Answered(q.peers);
    var result := IntoResult(q);
    assert result <= ok;
    assert forall r :: r in result ==> r in ok;
    forall r, d: nat | r in result && Pending(q.peers, d) ensures r < d {
      var i :| 0 <= i < |result| && result[i] == r;
      if d <= r {
        BelowIsPrefix(q.peers, ok, i, d);
      }
    }
    forall r, d | r in result && d in Answered(q.peers) && d !in result ensures r < d {
      var i :| 0 <= i < |result| && result[i] == r;
      var j :| 0 <= j < |ok| && ok[j] == d;
      assert ok[i] == r && result == ok[..|result|];
    }
    forall d: nat | Pending(q.peers, d) ensures |result| >= q.cfg.numResults {
      BelowIsPrefix(q.peers, ok, |ok|, d);
    }
  }

  /** The peers that answered and are closer than `d` come before position `i`. */
  lemma BelowIsPrefix(peers: Peers, ok: seq<nat>, i: nat, d: nat)
    requires Ascending(ok) && forall s :: s in ok <==> s in peers && peers[s].Succeeded?
    requires i <= |ok| && (i < |ok| ==> d <= ok[i])
    ensures |SucceededBelow(peers, d)| <= i
  {
    var prefix := ToSet(ok[..i]);
    forall s | s in SucceededBelow(peers, d) ensures s in prefix {
      var j :| 0 <= j < |ok| && ok[j] == s;
      assert j < i ==> ok[..i][j] == s;
    }
    SubsetSize(SucceededBelow(peers, d), prefix);
    PrefixSize(ok[..i]);
  }

  ghost function ToSet(s: seq<nat>): set<nat>
  {
    set x | x in s
  }

  lemma {:induction false} PrefixSize(s: seq<nat>)
    ensures |ToSet(s)| <= |s|
  {
    if s != [] {
      PrefixSize(s[1..]);
      assert ToSet(s) == ToSet(s[1..]) + {s[0]};
    }
  }

  lemma {:induction false} AscendingSize(s: seq<nat>)
    requires Ascending(s)
    ensures |ToSet(s)| == |s|
  {
    if s != [] {
      AscendingSize(s[1..]);
      assert s[0] !in s[1..];
      assert ToSet(s) == ToSet(s[1..]) + {s[0]};
    }
  }

  // --- The query object ---

  class Iterator {
    const cfg: Config
    var peers: Peers
    var progress: Progress
    var numWaiting: nat

    ghost function Snapshot(): Query
      reads this
    {
      Query(cfg, peers, progress, numWaiting)
    }

    constructor (cfg: Config, known: seq<nat>)
      ensures Snapshot() == Start(cfg, known).query && Counted(Snapshot())
    {
      this.cfg := cfg;
      var first := if |known| <= cfg.numResults then known else known[..cfg.numResults];
      peers := map d | d in first :: NotContacted;
      progress, numWaiting := Iterating(0), 0;
      new;
      StartHolds(cfg, known);
    }

    method ReportFailure(d: nat)
      requires Counted(Snapshot())
      modifies this
      ensures Snapshot() == OnFailure(old(Snapshot()), d) && Counted(Snapshot())
    {
      if progress.Finished? || d !in peers {
        return;
      }
      match peers[d]
      case Waiting(_) =>
        SettleCounts(Snapshot(), d, Failed);
        numWaiting := numWaiting - 1;
        peers := peers[d := Failed];
      case Unresponsive =>
        SettleCounts(Snapshot(), d, Failed);
        peers := peers[d := Failed];
      case _ =>
    }

    method ReportSuccess(d: nat, reported: seq<nat>)
      requires Counted(Snapshot())
      modifies this
      ensures Snapshot() == OnSuccess(old(Snapshot()), d, reported) && Counted(Snapshot())
    {
      hide Incorporate, MadeProgress, WaitingPeers, Contacted;
      if progress.Finished? || d !in peers {
        return;
      }
      match peers[d] {
        case Waiting(_) =>
          SettleCounts(Snapshot(), d, Succeeded);
          numWaiting := numWaiting - 1;
          peers := peers[d := Succeeded];
        case Unresponsive =>
          SettleCounts(Snapshot(), d, Succeeded);
          peers := peers[d := Succeeded];
        case _ =>
          return;
      }
      assert Snapshot() == Settle(old(Snapshot()), d, Succeeded);
      IncorporateCounts(peers, reported);
      var made := AddReported(reported);
      progress := NextProgress(cfg, progress, made);
    }

    /** The loop over the reported peers: `made` is overwritten for each of them. */
    method AddReported(reported: seq<nat>) returns (made: bool)
      modifies this`peers
      ensures peers == Incorporate(old(peers), reported)
      ensures made == MadeProgress(old(Snapshot()), reported)
    {
      hide Incorporate;
      made := false;
      var numClosest := |peers|;
      IncorporateNone(peers);
      assert reported[..0] == [];
      for i := 0 to |reported|
        invariant peers == Incorporate(old(peers), reported[..i])
        invariant i > 0 ==>
          (made <==> (forall k :: k in peers ==> reported[i - 1] <= k) || numClosest < cfg.numResults)
        invariant i == 0 ==> !made
      {
        var r := reported[i];
        IncorporateOneMore(old(peers), reported[..i], r);
        assert reported[..i + 1] == reported[..i] + [r];
        if r !in peers {
          peers := peers[r := NotContacted];
        }
        made := (forall k :: k in peers ==> r <= k) || numClosest < cfg.numResults;
      }
      assert reported[..|reported|] == reported;
    }

    method PollNow(now: nat) returns (r: Polled)
      requires Counted(Snapshot())
      modifies this
      ensures (Snapshot(), r) == Poll(old(Snapshot()), now) && Counted(Snapshot())
    {
      hide WaitingPeers, Contacted, InOrder, PollFrom;
      if progress.Finished? {
        return Done;
      }
      var full := AtCapacityNow(Query(cfg, peers, progress, numWaiting));
      var keys := InOrder(peers.Keys);
      var count := Some(0);
      ghost var whole := PollFrom(Snapshot(), keys, count, full, now);
      assert keys[0..] == keys;
      for i := 0 to |keys|
        invariant peers.Keys == old(peers.Keys) && Counted(Snapshot())
        invariant PollFrom(Snapshot(), keys[i..], count, full, now) == whole
      {
        assert keys[i..][0] == keys[i] && keys[i..][1..] == keys[i + 1..];
        var stop;
        stop, count := Visit(keys[i], keys[i..], count, full, now);
        if stop.Some? {
          return stop.value;
        }
      }
      r := AllVisited(keys[|keys|..], count, full, now);
    }

    /** One turn of the loop in `poll`. */
    method Visit(d: nat, ghost keys: seq<nat>, count: Option<nat>, full: bool, now: nat)
      returns (stop: Option<Polled>, count': Option<nat>)
      requires Counted(Snapshot()) && keys != [] && keys[0] == d
      requires forall k :: k in keys ==> k in peers
      modifies this
      ensures peers.Keys == old(peers.Keys) && Counted(Snapshot())
      ensures PollFrom(old(Snapshot()), keys, count, full, now) ==
              match stop
              case Some(r) => (Snapshot(), r)
              case None => PollFrom(Snapshot(), keys[1..], count', full, now)
    {
      hide WaitingPeers, Contacted, InOrder;
      stop, count' := None, count;
      assert d in keys;
      match peers[d]
      case NotContacted =>
        if full {
          stop := Some(AtCapacity);
        } else {
          ContactCounts(Snapshot(), d, Waiting(now + cfg.peerTimeout));
          peers := peers[d := Waiting(now + cfg.peerTimeout)];
          numWaiting := numWaiting + 1;
          stop := Some(Contact(d));
        }
      case Waiting(t) =>
        if now >= t {
          SettleCounts(Snapshot(), d, Unresponsive);
          numWaiting := numWaiting - 1;
          peers := peers[d := Unresponsive];
        } else if full {
          stop := Some(AtCapacity);
        } else {
          count' := None;
        }
      case Succeeded =>
        if count.Some? {
          count' := Some(count.value + 1);
          if count'.value >= cfg.numResults {
            progress := Finished;
            stop := Some(Done);
          }
        }
      case _ =>
    }

    method AllVisited(ghost keys: seq<nat>, ghost count: Option<nat>, ghost full: bool, ghost now: nat)
      returns (r: Polled)
      requires keys == []
      modifies this
      ensures peers == old(peers) && numWaiting == old(numWaiting)
      ensures (Snapshot(), r) == PollFrom(old(Snapshot()), keys, count, full, now)
    {
      if numWaiting > 0 {
        return WaitingForPeers;
      }
      progress := Finished;
      r := Done;
    }
  }

  lemma IncorporateNone(peers: Peers)
    ensures Incorporate(peers, []) == peers
  {
  }

  lemma IncorporateOneMore(peers: Peers, reported: seq<nat>, r: nat)
    ensures var m := Incorporate(peers, reported);
            Incorporate(peers, reported + [r]) == if r in m then m else m[r := NotContacted]
  {
  }
}
