/** Whole lifetimes of the content store: any sequence of openings and puts over one database. */
module HistoryRuns {
  import opened Bytes
  import opened Distance
  import opened HistoryStorage
  import opened Wrappers

  datatype Op = Open(capacity: nat) | Put(id: Word, value: seq<u8>)
  datatype Sys = Sys(capacity: nat, store: State)

  ghost predicate Step(node: Word, sys: Sys, op: Op, sys': Sys)
  {
    match op
    case Open(c) => sys'.capacity == c && OpenStep(Config(node, c), sys.store.rows, sys'.store)
    case Put(id, value) =>
      sys'.capacity == sys.capacity && PutStep(Config(node, sys.capacity), sys.store, id, value, sys'.store)
  }

  ghost predicate StepAt(node: Word, trace: seq<Sys>, ops: seq<Op>, i: nat)
    requires 0 < i < |ops| == |trace|
  {
    Step(node, trace[i - 1], ops[i], trace[i])
  }

  /** `trace[i]` is the state after `ops[i]`; the first operation opens an empty database. */
  ghost predicate IsRun(node: Word, trace: seq<Sys>, ops: seq<Op>)
  {
    && |trace| == |ops| > 0
    && ops[0].Open?
    && Step(node, Sys(0, State(map[], 0)), ops[0], trace[0])
    && forall i :: 0 < i < |ops| ==> StepAt(node, trace, ops, i)
  }

  ghost predicate WithinRadius(node: Word, s: State)
  {
    forall id :: id in s.rows ==> Key(node, id) <= Top32(s.radius)
  }

  ghost predicate Safe(node: Word, sys: Sys)
  {
    && WellFormed(sys.store.rows)
    && WithinRadius(node, sys.store)
    && (Total(sys.store.rows) <= sys.capacity
        || exists f :: Overfull(Config(node, sys.capacity), sys.store, f))
  }

  /** Every stored value is one that was put under that id. */
  ghost predicate Authentic(rows: Table, ops: seq<Op>)
  {
    forall id :: id in rows ==> Put(id, rows[id].value) in ops
  }

  lemma MaxRadiusCoversAll(node: Word, rows: Table)
    ensures WithinRadius(node, State(rows, MAX_DISTANCE))
  {
    forall id | id in rows ensures Key(node, id) <= Top32(MAX_DISTANCE) {
      DistanceIsXor(id, node);
      ShiftRightMonotone(Dist(node, id), MAX_DISTANCE, 224);
    }
  }

  lemma PruneKeepsSafe(cfg: Config, s: State, s': State)
    requires WellFormed(s.rows) && WithinRadius(cfg.node, s) && PruneStep(cfg, s, s')
    ensures Safe(cfg.node, Sys(cfg.capacity, s'))
    ensures Top32(s'.radius) <= Top32(s.radius)
  {
    PruneBounds(cfg, s, s');
    if s'.rows == map[] {
      ShiftRightMonotone(0, s.radius, 224);
    }
  }

  lemma StepKeepsSafe(node: Word, sys: Sys, op: Op, sys': Sys, past: seq<Op>)
    requires Safe(node, sys) && Authentic(sys.store.rows, past) && Step(node, sys, op, sys')
    ensures Safe(node, sys') && Authentic(sys'.store.rows, past + [op])
    ensures op.Put? ==> Top32(sys'.store.radius) <= Top32(sys.store.radius)
    ensures op.Put? && Total(sys.store.rows) >= sys.capacity ==> Total(sys'.store.rows) >= sys.capacity
  {
    hide DistanceBetween, MayReturn, PruneRun, MaximalKey, ShiftRight;
    var s := sys.store;
    match op
    case Open(c) =>
      if s.rows != map[] {
        MaxRadiusCoversAll(node, s.rows);
        PruneKeepsSafe(Config(node, c), State(s.rows, MAX_DISTANCE), sys'.store);
        PruneBounds(Config(node, c), State(s.rows, MAX_DISTANCE), sys'.store);
      }
    case Put(id, value) =>
      if Dist(node, id) <= s.radius {
        var t := s.(rows := Insert(s.rows, id, value));
        ShiftRightMonotone(Dist(node, id), s.radius, 224);
        PruneKeepsSafe(Config(node, sys.capacity), t, sys'.store);
        PruneBounds(Config(node, sys.capacity), t, sys'.store);
        InsertTotal(s.rows, id, value);
      }
  }

  /** In every state of every run: each stored item lies, by prefix, within the advertised
      radius; the store is within capacity or over it by less than its farthest item; and
      nothing is stored that was not put. */
  lemma {:induction false} RunIsSafe(node: Word, trace: seq<Sys>, ops: seq<Op>, i: nat)
    requires IsRun(node, trace, ops) && i < |trace|
    ensures Safe(node, trace[i]) && Authentic(trace[i].store.rows, ops[..i + 1])
  {
    if i == 0 {
      StepKeepsSafe(node, Sys(0, State(map[], 0)), ops[0], trace[0], []);
      assert ops[..1] == [ops[0]];
    } else {
      RunIsSafe(node, trace, ops, i - 1);
      assert StepAt(node, trace, ops, i);
      StepKeepsSafe(node, trace[i - 1], ops[i], trace[i], ops[..i]);
      assert ops[..i + 1] == ops[..i] + [ops[i]];
    }
  }

  /** What a step may lose: a row goes only when the store is full without it, and then nothing kept
      is farther, by prefix. */
  ghost predicate LostOnlyWhenFull(node: Word, before: Sys, after: Sys, id: Word)
  {
    id in before.store.rows && id !in after.store.rows ==>
      && Total(after.store.rows) >= after.capacity
      && forall j :: j in after.store.rows ==> Key(node, j) <= Key(node, id)
  }

  lemma StepLosesOnlyWhenFull(node: Word, sys: Sys, op: Op, sys': Sys, id: Word)
    requires Safe(node, sys) && Step(node, sys, op, sys')
    ensures LostOnlyWhenFull(node, sys, sys', id)
    ensures op.Put? && id !in sys.store.rows && id in sys'.store.rows ==> id == op.id
    ensures op.Open? && id !in sys.store.rows ==> id !in sys'.store.rows
    ensures sys'.capacity == if op.Open? then op.capacity else sys.capacity
  {
    hide Total, DistanceBetween, Top32, PruneStep, MaximalKey;
    var s, t := sys.store, sys'.store;
    match op
    case Open(c) =>
      if s.rows != map[] {
        PruneLosesOnlyWhenFull(Config(node, c), State(s.rows, MAX_DISTANCE), t, id);
      }
    case Put(put, value) =>
      if Dist(node, put) <= s.radius {
        PruneLosesOnlyWhenFull(Config(node, sys.capacity), s.(rows := Insert(s.rows, put, value)), t, id);
      }
  }

  lemma PruneLosesOnlyWhenFull(cfg: Config, s: State, s': State, id: Word)
    requires WellFormed(s.rows) && PruneStep(cfg, s, s')
    ensures id in s'.rows ==> id in s.rows
    ensures id in s.rows && id !in s'.rows ==>
              Total(s'.rows) >= cfg.capacity && forall j :: j in s'.rows ==> Key(cfg.node, j) <= Key(cfg.node, id)
  {
    hide Total, DistanceBetween, Top32, PruneStep, MaximalKey;
    PruneBounds(cfg, s, s');
    if id in s.rows && id !in s'.rows {
      forall j | j in s'.rows ensures Key(cfg.node, j) <= Key(cfg.node, id) {
        PruneEvictsFarthest(cfg, s, s', id, j);
      }
    }
  }

  /** Between one state of a run and the next nothing is lost unless the store is full without it and
      keeps nothing farther, and nothing appears but the item put. */
  lemma NothingLostWithoutNeed(node: Word, trace: seq<Sys>, ops: seq<Op>, i: nat, id: Word)
    requires IsRun(node, trace, ops) && 0 < i < |trace|
    ensures id in trace[i - 1].store.rows && id !in trace[i].store.rows ==>
              && Total(trace[i].store.rows) >= trace[i].capacity
              && forall j :: j in trace[i].store.rows ==> Key(node, j) <= Key(node, id)
    ensures id !in trace[i - 1].store.rows && id in trace[i].store.rows ==> ops[i].Put? && ops[i].id == id
    ensures trace[i].capacity == if ops[i].Open? then ops[i].capacity else trace[i - 1].capacity
  {
    hide Step, Safe, Total, DistanceBetween;
    RunIsSafe(node, trace, ops, i - 1);
    assert StepAt(node, trace, ops, i);
    StepLosesOnlyWhenFull(node, trace[i - 1], ops[i], trace[i], id);
  }

  lemma StepKeepsRows(node: Word, sys: Sys, op: Op, sys': Sys, id: Word)
    requires Safe(node, sys) && Step(node, sys, op, sys')
    requires id in sys.store.rows && id in sys'.store.rows
    ensures sys'.store.rows[id] == sys.store.rows[id]
  {
    hide Total, DistanceBetween, Top32, PruneStep;
    var s := sys.store;
    match op
    case Open(c) => PruneBounds(Config(node, c), State(s.rows, MAX_DISTANCE), sys'.store);
    case Put(put, value) =>
      if Dist(node, put) <= s.radius {
        PruneBounds(Config(node, sys.capacity), s.(rows := Insert(s.rows, put, value)), sys'.store);
      }
  }

  /** While an item stays in the database, across puts and restarts, its row never changes. */
  lemma {:induction false} RowsNeverRewritten(node: Word, trace: seq<Sys>, ops: seq<Op>, i: nat, j: nat, id: Word)
    requires IsRun(node, trace, ops) && i <= j < |trace|
    requires forall k :: i <= k <= j ==> id in trace[k].store.rows
    ensures trace[j].store.rows[id] == trace[i].store.rows[id]
    decreases j
  {
    hide Safe, Step, Total, DistanceBetween;
    if i < j {
      RowsNeverRewritten(node, trace, ops, i, j - 1, id);
      RunIsSafe(node, trace, ops, j - 1);
      assert StepAt(node, trace, ops, j);
      StepKeepsRows(node, trace[j - 1], ops[j], trace[j], id);
    }
  }

  ghost predicate OnlyPuts(ops: seq<Op>, i: nat, j: nat)
    requires i <= j < |ops|
  {
    forall k :: i < k <= j ==> ops[k].Put?
  }

  /** While a store stays open its radius, by prefix, never grows, and once it is full it is
      never again under capacity. */
  lemma {:induction false} OpenStoreOnlyTightens(node: Word, trace: seq<Sys>, ops: seq<Op>, i: nat, j: nat)
    requires IsRun(node, trace, ops) && i <= j < |trace| && OnlyPuts(ops, i, j)
    ensures trace[j].capacity == trace[i].capacity
    ensures Top32(trace[j].store.radius) <= Top32(trace[i].store.radius)
    ensures Total(trace[i].store.rows) >= trace[i].capacity ==> Total(trace[j].store.rows) >= trace[j].capacity
    decreases j
  {
    if i < j {
      OpenStoreOnlyTightens(node, trace, ops, i, j - 1);
      RunIsSafe(node, trace, ops, j - 1);
      assert StepAt(node, trace, ops, j);
      StepKeepsSafe(node, trace[j - 1], ops[j], trace[j], ops[..j]);
    }
  }

  lemma StepUnderCapacity(node: Word, sys: Sys, op: Op, sys': Sys)
    requires Safe(node, sys) && Step(node, sys, op, sys')
    requires Total(sys.store.rows) < sys.capacity ==> sys.store.radius == MAX_DISTANCE
    requires Total(sys'.store.rows) < sys'.capacity
    ensures sys'.store.radius == MAX_DISTANCE
  {
    hide DistanceBetween, PruneStep, MaximalKey, Top32;
    var s := sys.store;
    match op
    case Open(c) =>
      if s.rows != map[] {
        PruneBounds(Config(node, c), State(s.rows, MAX_DISTANCE), sys'.store);
      }
    case Put(id, value) =>
      if Dist(node, id) <= s.radius {
        PruneBounds(Config(node, sys.capacity), s.(rows := Insert(s.rows, id, value)), sys'.store);
        InsertTotal(s.rows, id, value);
      }
  }

  /** In every state of every run a store strictly under capacity advertises the full radius. */
  lemma {:induction false} UnderCapacityFullRadius(node: Word, trace: seq<Sys>, ops: seq<Op>, i: nat)
    requires IsRun(node, trace, ops) && i < |trace|
    requires Total(trace[i].store.rows) < trace[i].capacity
    ensures trace[i].store.radius == Pow2(256) - 1
  {
    hide Step, Safe, Total;
    if i == 0 {
      StartsSafe(node);
      StepUnderCapacity(node, Sys(0, State(map[], 0)), ops[0], trace[0]);
    } else {
      if Total(trace[i - 1].store.rows) < trace[i - 1].capacity {
        UnderCapacityFullRadius(node, trace, ops, i - 1);
      }
      RunIsSafe(node, trace, ops, i - 1);
      assert StepAt(node, trace, ops, i);
      StepUnderCapacity(node, trace[i - 1], ops[i], trace[i]);
    }
  }

  lemma StartsSafe(node: Word)
    ensures Safe(node, Sys(0, State(map[], 0)))
  {
  }

  // --- Restarting ---

  /** However ties are broken, opening the database again changes nothing. */
  ghost predicate ReopenStable(cfg: Config, s: State)
  {
    forall s' :: OpenStep(cfg, s.rows, s') ==> s' == s
  }

  lemma UniqueMeansStable(cfg: Config, s: State, f: Word)
    requires WellFormed(s.rows) && Total(s.rows) > cfg.capacity && Overfull(cfg, s, f)
    requires UniqueFarthestPrefix(cfg.node, s.rows)
    ensures ReopenStable(cfg, s)
  {
    forall s' | OpenStep(cfg, s.rows, s') ensures s' == s {
      var t := State(s.rows, MAX_DISTANCE);
      var evicted, last :| PruneRun(cfg, t, evicted, last, s');
      WithoutNone(s.rows);
      if evicted != [] {
        assert evicted[..0] == [];
        assert Evictable(cfg, Without(s.rows, evicted[..0]), evicted[0]);
        QueryMaximisesPrefix(cfg.node, s.rows, evicted[0]);
        assert false;
      }
      QueryMaximisesPrefix(cfg.node, s.rows, last.value);
    }
  }

  lemma TieMeansUnstable(cfg: Config, s: State, f: Word)
    requires WellFormed(s.rows) && Total(s.rows) > cfg.capacity && Overfull(cfg, s, f)
    requires !UniqueFarthestPrefix(cfg.node, s.rows)
    ensures !ReopenStable(cfg, s)
  {
    var i, j :| MaximalKey(cfg.node, s.rows, i) && MaximalKey(cfg.node, s.rows, j) && i != j;
    var g := if i == f then j else i;
    var evicted, last, s' := PruneCanStartWith(cfg, State(s.rows, MAX_DISTANCE), g);
    if Dist(cfg.node, g) == Dist(cfg.node, f) {
      DistInjective(cfg.node, g, f);
    }
    assert OpenStep(cfg, s.rows, s') && s' != s;
  }

  /** The radius a store starts with when it is opened on these rows and they fit. */
  function OpeningRadius(rows: Table, capacity: nat): nat
  {
    if rows == map[] && capacity == 0 then 0 else MAX_DISTANCE
  }

  lemma ReopenWithinCapacity(cfg: Config, s: State)
    requires WellFormed(s.rows) && Total(s.rows) <= cfg.capacity
    ensures ReopenStable(cfg, s) <==> s.radius == OpeningRadius(s.rows, cfg.capacity)
  {
    if s.rows == map[] {
      assert OpenStep(cfg, s.rows, State(s.rows, if cfg.capacity == 0 then 0 else MAX_DISTANCE));
    } else {
      var t := State(s.rows, MAX_DISTANCE);
      forall s' | OpenStep(cfg, s.rows, s') ensures s' == t {
        PruneBounds(cfg, t, s');
      }
      var f := MaximalKeyExists(cfg.node, s.rows);
      var evicted, last, s' := PruneCanStartWith(cfg, t, f);
      assert OpenStep(cfg, s.rows, s');
    }
  }

  /** Restarting at the same capacity keeps every row and the radius: always, when the store is
      strictly under capacity; over capacity exactly when no two rows share the farthest prefix;
      and at exactly the capacity exactly when the radius is still the one that opening sets. */
  lemma RestartStability(node: Word, trace: seq<Sys>, ops: seq<Op>, i: nat)
    requires IsRun(node, trace, ops) && i < |trace|
    ensures var s, c := trace[i].store, trace[i].capacity;
            ReopenStable(Config(node, c), s) <==>
            || Total(s.rows) < c
            || (Total(s.rows) > c && UniqueFarthestPrefix(node, s.rows))
            || (Total(s.rows) == c && s.radius == if s.rows == map[] && c == 0 then 0 else Pow2(256) - 1)
  {
    hide OpenStep, MaximalKey, DistanceBetween, ReopenStable;
    RunIsSafe(node, trace, ops, i);
    var s, c := trace[i].store, trace[i].capacity;
    var cfg := Config(node, c);
    if Total(s.rows) > c {
      var f :| Overfull(cfg, s, f);
      if UniqueFarthestPrefix(node, s.rows) {
        UniqueMeansStable(cfg, s, f);
      } else {
        TieMeansUnstable(cfg, s, f);
      }
    } else {
      ReopenWithinCapacity(cfg, s);
      if Total(s.rows) < c {
        UnderCapacityFullRadius(node, trace, ops, i);
      }
    }
  }

  /** A put after which nothing has to go. */
  lemma PutWithoutEviction(cfg: Config, s: State, id: Word, value: seq<u8>, f: Word)
    requires WellFormed(s.rows) && Dist(cfg.node, id) <= s.radius
    requires var rows := Insert(s.rows, id, value);
             MaximalKey(cfg.node, rows, f) && Total(rows) < cfg.capacity + rows[f].size
    ensures var rows := Insert(s.rows, id, value);
            PutStep(cfg, s, id, value,
                    State(rows, if Total(rows) <= cfg.capacity then s.radius else Dist(cfg.node, f)))
  {
    var rows := Insert(s.rows, id, value);
    var s' := State(rows, if Total(rows) <= cfg.capacity then s.radius else Dist(cfg.node, f));
    WithoutNone(rows);
    QueryMaximisesPrefix(cfg.node, rows, f);
    assert PruneRun(cfg, s.(rows := rows), [], Some(f), s');
  }

  /** A run whose restart is not stable: two items with the same 4-byte prefix, together just
      over capacity. */
  lemma TieBreaksRestart(node: Word, a: Word, b: Word, v: seq<u8>, w: seq<u8>, c: nat)
    returns (trace: seq<Sys>, ops: seq<Op>)
    requires a != b && a[..4] == b[..4]
    requires |v| < c && |w| < c < |v| + |w|
    ensures IsRun(node, trace, ops) && |trace| == 3
    ensures !ReopenStable(Config(node, c), trace[2].store)
  {
    hide DistanceBetween, Top32, PruneRun, ReopenStable, Safe, SqlKey, Prefix32;
    var one := Insert(map[], a, v);
    var two := Insert(one, b, w);
    var s0, s1, s2 := State(map[], MAX_DISTANCE), State(one, MAX_DISTANCE), State(two, Dist(node, a));
    ops := [Open(c), Put(a, v), Put(b, w)];
    trace := [Sys(c, s0), Sys(c, s1), Sys(c, s2)];
    InsertTotal(map[], a, v);
    InsertTotal(one, b, w);
    PrefixTie(node, a, b);
    DistanceIsXor(a, node);
    DistanceIsXor(b, node);
    PutWithoutEviction(Config(node, c), s0, a, v, a);
    PutWithoutEviction(Config(node, c), s1, b, w, a);
    assert StepAt(node, trace, ops, 1) && StepAt(node, trace, ops, 2);
    assert MaximalKey(node, two, a) && MaximalKey(node, two, b);
    RestartStability(node, trace, ops, 2);
  }

  /** A put of an item farther than the one stored, which already fills the store, evicts it again
      and leaves the radius at the item kept. */
  lemma PutEvicted(cfg: Config, a: Word, b: Word, v: seq<u8>, w: seq<u8>)
    requires Key(cfg.node, b) < Key(cfg.node, a) && v != [] && |w| == cfg.capacity
    requires Dist(cfg.node, a) <= MAX_DISTANCE
    ensures var one := Insert(map[], b, w);
            PutStep(cfg, State(one, MAX_DISTANCE), a, v, State(one, Dist(cfg.node, b)))
  {
    hide DistanceBetween, Top32, SqlKey, Prefix32;
    var one := Insert(map[], b, w);
    var two := Insert(one, a, v);
    InsertTotal(map[], b, w);
    InsertTotal(one, a, v);
    QueryMaximisesPrefix(cfg.node, two, a);
    QueryMaximisesPrefix(cfg.node, one, b);
    WithoutNone(two);
    assert EvictedInOrder(cfg, two, [a]) by {
      assert [a][..0] == [];
    }
    assert Without(two, [a]) == one;
    PruneEndsWithinCapacity(cfg, State(two, MAX_DISTANCE), [a], Some(b), State(one, Dist(cfg.node, b)));
  }

  /** A run whose restart is not stable at exactly the capacity: the radius, reduced when a farther
      item came and went, is the full one again. */
  lemma FullExactlyResets(node: Word, a: Word, b: Word, v: seq<u8>, w: seq<u8>)
    returns (trace: seq<Sys>, ops: seq<Op>)
    requires Key(node, b) < Key(node, a) && v != [] && w != []
    ensures IsRun(node, trace, ops) && |trace| == 3
    ensures Total(trace[2].store.rows) == trace[2].capacity == |w|
    ensures !ReopenStable(Config(node, |w|), trace[2].store)
  {
    hide DistanceBetween, Top32, PruneRun, ReopenStable, Safe, SqlKey, Prefix32;
    var c, one := |w|, Insert(map[], b, w);
    var s0, s1, s2 := State(map[], MAX_DISTANCE), State(one, MAX_DISTANCE), State(one, Dist(node, b));
    ops := [Open(c), Put(b, w), Put(a, v)];
    trace := [Sys(c, s0), Sys(c, s1), Sys(c, s2)];
    InsertTotal(map[], b, w);
    DistanceIsXor(a, node);
    DistanceIsXor(b, node);
    PutWithoutEviction(Config(node, c), s0, b, w, b);
    PutEvicted(Config(node, c), a, b, v, w);
    assert StepAt(node, trace, ops, 1) && StepAt(node, trace, ops, 2);
    BelowTheTop(node, a, b);
    RestartStability(node, trace, ops, 2);
  }

  lemma BelowTheTop(node: Word, a: Word, b: Word)
    requires Key(node, b) < Key(node, a) && Dist(node, a) <= MAX_DISTANCE
    ensures Dist(node, b) < MAX_DISTANCE
  {
    hide DistanceBetween;
    if Dist(node, b) >= MAX_DISTANCE {
      ShiftRightMonotone(Dist(node, a), Dist(node, b), 224);
    }
  }
}
