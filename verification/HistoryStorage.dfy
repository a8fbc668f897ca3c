/** The radius-bounded content store.

    The SQL table is a map from content id to row. The farthest-row query may return any
    row of greatest index key, so pruning is a relation between states; the class
    `ContentStore` is proved to take only steps of that relation. */
module HistoryStorage {
  import opened Bytes
  import opened Distance
  import opened Wrappers

  /** `short` is `content_id_short`, the indexed 4-byte prefix. */
  datatype Row = Row(short: nat, value: seq<u8>, size: nat)
  type Table = map<Word, Row>

  datatype Config = Config(node: Word, capacity: nat)
  datatype State = State(rows: Table, radius: nat)

  datatype ShouldWeStoreContent = Store | NotWithinRadius | AlreadyStored
  datatype PutResult = Stored | InsufficientRadius(radius: nat, distance: nat)

  // --- Queries ---

  /** `SELECT TOTAL(content_size)`. */
  ghost function Total(rows: Table): nat
  {
    if rows == map[] then 0
    else
      var id :| id in rows;
      rows[id].size + Total(rows - {id})
  }

  lemma {:induction false} TotalRemove(rows: Table, id: Word)
    requires id in rows
    ensures Total(rows) == rows[id].size + Total(rows - {id})
    decreases |rows|
  {
    var j :| j in rows && Total(rows) == rows[j].size + Total(rows - {j});
    if j != id {
      TotalRemove(rows - {j}, id);
      TotalRemove(rows - {id}, j);
      assert rows - {j} - {id} == rows - {id} - {j};
    }
  }

  /** Rows the farthest query may put first. */
  ghost predicate MayReturn(node: Word, rows: Table, id: Word)
  {
    && id in rows
    && forall j :: j in rows ==>
         SqlKey(Prefix32(node), rows[j].short) <= SqlKey(Prefix32(node), rows[id].short)
  }

  ghost predicate WellFormed(rows: Table)
  {
    forall id :: id in rows ==> rows[id].short == Prefix32(id) && rows[id].size == |rows[id].value|
  }

  /** Full distance of an id to the node, and its top 32 bits. */
  function Dist(node: Word, id: Word): nat
  {
    DistanceBetween(id, node)
  }

  function Key(node: Word, id: Word): nat
  {
    Top32(Dist(node, id))
  }

  ghost predicate MaximalKey(node: Word, rows: Table, id: Word)
  {
    id in rows && forall j :: j in rows ==> Key(node, j) <= Key(node, id)
  }

  ghost predicate TrulyFarthest(node: Word, rows: Table, id: Word)
  {
    id in rows && forall j :: j in rows ==> Dist(node, j) <= Dist(node, id)
  }

  ghost predicate UniqueFarthestPrefix(node: Word, rows: Table)
  {
    forall i, j :: MaximalKey(node, rows, i) && MaximalKey(node, rows, j) ==> i == j
  }

  /** The index order is the order of the top 32 bits of the distance. */
  lemma QueryMaximisesPrefix(node: Word, rows: Table, id: Word)
    requires WellFormed(rows)
    ensures MayReturn(node, rows, id) <==> MaximalKey(node, rows, id)
  {
    forall j | j in rows
      ensures SqlKey(Prefix32(node), rows[j].short) == Key(node, j)
    {
      SqlKeyIsTop32(node, j);
      MetricSymmetric(node, j);
    }
  }

  lemma {:induction false} MaximalKeyExists(node: Word, rows: Table) returns (f: Word)
    requires rows != map[]
    ensures MaximalKey(node, rows, f)
    decreases |rows|
  {
    f :| f in rows;
    var rest := rows - {f};
    if rest != map[] {
      var g := MaximalKeyExists(node, rest);
      forall j | j in rows && j != f ensures j in rest {}
      if Key(node, f) < Key(node, g) {
        f := g;
      }
    }
  }

  lemma DistInjective(node: Word, i: Word, j: Word)
    requires Dist(node, i) == Dist(node, j)
    ensures i == j
  {
    MetricSymmetric(node, i);
    MetricSymmetric(node, j);
    MetricInjective(node, i, j);
  }

  /** Whatever row the query returns is the farthest one, exactly when no two rows share the
      greatest prefix. */
  lemma QueryIsExactIffNoTie(node: Word, rows: Table)
    requires WellFormed(rows)
    ensures (forall id :: MayReturn(node, rows, id) ==> TrulyFarthest(node, rows, id))
       <==> UniqueFarthestPrefix(node, rows)
  {
    forall id ensures MayReturn(node, rows, id) <==> MaximalKey(node, rows, id) {
      QueryMaximisesPrefix(node, rows, id);
    }
    if UniqueFarthestPrefix(node, rows) {
      forall id | MayReturn(node, rows, id) ensures TrulyFarthest(node, rows, id) {
        forall j | j in rows ensures Dist(node, j) <= Dist(node, id) {
          if Dist(node, j) > Dist(node, id) {
            ShiftRightMonotone(Dist(node, id), Dist(node, j), 224);
            assert MaximalKey(node, rows, j);
          }
        }
      }
    } else {
      var i, j :| MaximalKey(node, rows, i) && MaximalKey(node, rows, j) && i != j;
      if TrulyFarthest(node, rows, i) && TrulyFarthest(node, rows, j) {
        DistInjective(node, i, j);
      }
    }
  }

  lemma PrefixTie(node: Word, a: Word, b: Word)
    requires a[..4] == b[..4]
    ensures Key(node, a) == Key(node, b)
  {
    SqlKeyIsTop32(a, node);
    SqlKeyIsTop32(b, node);
  }

  /** Of any two items that share their first four bytes, alone in a table, the query may return
      the one that is not the farthest. */
  lemma FarthestMissed(node: Word, a: Word, b: Word, v: seq<u8>, w: seq<u8>) returns (near: Word)
    requires a != b && a[..4] == b[..4]
    ensures near == a || near == b
    ensures var rows := Insert(Insert(map[], a, v), b, w);
            WellFormed(rows) && MayReturn(node, rows, near) && !TrulyFarthest(node, rows, near)
  {
    hide DistanceBetween, Top32, SqlKey, Prefix32;
    PrefixTie(node, a, b);
    if Dist(node, a) == Dist(node, b) {
      DistInjective(node, a, b);
    }
    near := if Dist(node, a) < Dist(node, b) then a else b;
    var rows := Insert(Insert(map[], a, v), b, w);
    QueryMaximisesPrefix(node, rows, near);
    assert a in rows && b in rows;
  }

  // --- Table steps ---

  /** `INSERT OR IGNORE`. */
  function Insert(rows: Table, id: Word, value: seq<u8>): Table
  {
    if id in rows then rows else rows[id := Row(Prefix32(id), value, |value|)]
  }

  lemma InsertTotal(rows: Table, id: Word, value: seq<u8>)
    ensures Total(Insert(rows, id, value)) == Total(rows) + (if id in rows then 0 else |value|)
  {
    if id !in rows {
      var rows' := Insert(rows, id, value);
      TotalRemove(rows', id);
      assert rows' - {id} == rows;
    }
  }

  ghost function Without(rows: Table, ids: seq<Word>): Table
  {
    rows - (set id | id in ids)
  }

  /** One execution of `prune_db`: `evicted` in order, then `last`, the farthest row found when
      the loop stops. */
  ghost predicate PruneRun(cfg: Config, s: State, evicted: seq<Word>, last: Option<Word>, s': State)
  {
    && EvictedInOrder(cfg, s.rows, evicted)
    && s'.rows == Without(s.rows, evicted)
    && (s'.rows == map[] <==> last.None?)
    && match last
       case None => s'.radius == (if evicted == [] then s.radius else 0)
       case Some(f) =>
         && MayReturn(cfg.node, s'.rows, f)
         && if Total(s'.rows) <= cfg.capacity
            then s'.radius == (if evicted == [] then s.radius else Dist(cfg.node, f))
            else s'.radius == Dist(cfg.node, f) && Total(s'.rows) < cfg.capacity + s'.rows[f].size
  }

  /** The loop body deletes `f`: over capacity, and still not under it without `f`. */
  ghost predicate Evictable(cfg: Config, rows: Table, f: Word)
  {
    && MayReturn(cfg.node, rows, f)
    && Total(rows) > cfg.capacity
    && Total(rows) >= cfg.capacity + rows[f].size
  }

  ghost predicate EvictedInOrder(cfg: Config, rows: Table, evicted: seq<Word>)
  {
    forall i :: 0 <= i < |evicted| ==> Evictable(cfg, Without(rows, evicted[..i]), evicted[i])
  }

  lemma EvictOneMore(cfg: Config, rows: Table, evicted: seq<Word>, id: Word)
    requires EvictedInOrder(cfg, rows, evicted) && Evictable(cfg, Without(rows, evicted), id)
    ensures EvictedInOrder(cfg, rows, evicted + [id])
    ensures var rest := Without(rows, evicted) - {id};
            && Without(rows, evicted + [id]) == rest
            && |rest| == |Without(rows, evicted)| - 1
            && (WellFormed(rows) ==> WellFormed(rest))
  {
    var more := evicted + [id];
    RemovalCounts(Without(rows, evicted), id);
    WithoutLast(rows, more);
    assert more[..|evicted|] == evicted;
    forall i | 0 <= i < |more| ensures Evictable(cfg, Without(rows, more[..i]), more[i]) {
      if i < |evicted| {
        assert more[..i] == evicted[..i];
      }
    }
  }

  lemma RemovalCounts(rows: Table, id: Word)
    requires id in rows
    ensures |rows - {id}| == |rows| - 1
  {
    assert (rows - {id}).Keys == rows.Keys - {id};
  }

  lemma PruneEndsOverfull(cfg: Config, s: State, evicted: seq<Word>, f: Word, rows: Table)
    requires EvictedInOrder(cfg, s.rows, evicted) && rows == Without(s.rows, evicted)
    requires MayReturn(cfg.node, rows, f)
    requires cfg.capacity < Total(rows) < cfg.capacity + rows[f].size
    ensures PruneStep(cfg, s, State(rows, Dist(cfg.node, f)))
  {
    assert PruneRun(cfg, s, evicted, Some(f), State(rows, Dist(cfg.node, f)));
  }

  lemma PruneEndsWithinCapacity(cfg: Config, s: State, evicted: seq<Word>, last: Option<Word>, s': State)
    requires EvictedInOrder(cfg, s.rows, evicted) && s'.rows == Without(s.rows, evicted)
    requires s'.rows != map[] ==> last.Some? && MayReturn(cfg.node, s'.rows, last.value)
    requires s'.radius == if evicted == [] then s.radius
                          else if s'.rows == map[] then 0 else Dist(cfg.node, last.value)
    requires Total(s'.rows) <= cfg.capacity
    ensures PruneStep(cfg, s, s')
  {
    assert PruneRun(cfg, s, evicted, if s'.rows == map[] then None else last, s');
  }

  ghost predicate PruneStep(cfg: Config, s: State, s': State)
  {
    exists evicted, last :: PruneRun(cfg, s, evicted, last, s')
  }

  ghost predicate PutStep(cfg: Config, s: State, id: Word, value: seq<u8>, s': State)
  {
    if Dist(cfg.node, id) > s.radius then s' == s
    else PruneStep(cfg, s.(rows := Insert(s.rows, id, value)), s')
  }

  /** `HistoryStorage::new` on a database holding `rows`. */
  ghost predicate OpenStep(cfg: Config, rows: Table, s': State)
  {
    if rows == map[] then s' == State(rows, if cfg.capacity == 0 then 0 else MAX_DISTANCE)
    else PruneStep(cfg, State(rows, MAX_DISTANCE), s')
  }

  // --- What a prune guarantees ---

  ghost predicate SubTable(small: Table, big: Table)
  {
    forall id :: id in small ==> id in big && small[id] == big[id]
  }

  /** Slightly over-full: the farthest row, which gives the radius, may not go. */
  ghost predicate Overfull(cfg: Config, s: State, f: Word)
  {
    && MaximalKey(cfg.node, s.rows, f)
    && s.radius == Dist(cfg.node, f)
    && Total(s.rows) < cfg.capacity + s.rows[f].size
  }

  /** The two-sided bound on the bytes kept, and how the radius is left. */
  lemma PruneBounds(cfg: Config, s: State, s': State)
    requires WellFormed(s.rows) && PruneStep(cfg, s, s')
    ensures SubTable(s'.rows, s.rows) && WellFormed(s'.rows)
    ensures Total(s.rows) <= cfg.capacity ==> s' == s
    ensures Total(s'.rows) >= Min(Total(s.rows), cfg.capacity)
    ensures Total(s'.rows) <= cfg.capacity || exists f :: Overfull(cfg, s', f)
    ensures Total(s.rows) > cfg.capacity ==>
              if s'.rows == map[] then s'.radius == 0
              else exists f :: MaximalKey(cfg.node, s'.rows, f) && s'.radius == Dist(cfg.node, f)
  {
    var evicted, last :| PruneRun(cfg, s, evicted, last, s');
    EvictionTotals(cfg, s, evicted, last, s');
    if last.Some? {
      QueryMaximisesPrefix(cfg.node, s'.rows, last.value);
      if Total(s'.rows) > cfg.capacity {
        assert Overfull(cfg, s', last.value);
      }
    }
  }

  lemma EvictionTotals(cfg: Config, s: State, evicted: seq<Word>, last: Option<Word>, s': State)
    requires PruneRun(cfg, s, evicted, last, s')
    ensures if evicted == [] then s'.rows == s.rows
            else Total(s.rows) > cfg.capacity && Total(s'.rows) >= cfg.capacity
  {
    WithoutNone(s.rows);
    if evicted != [] {
      var n := |evicted| - 1;
      assert Evictable(cfg, Without(s.rows, evicted[..n]), evicted[n]);
      WithoutLast(s.rows, evicted);
      TotalRemove(Without(s.rows, evicted[..n]), evicted[n]);
      assert evicted[..0] == [];
      assert Evictable(cfg, Without(s.rows, evicted[..0]), evicted[0]);
    }
  }

  lemma WithoutNone(rows: Table)
    ensures Without(rows, []) == rows
  {
  }

  lemma WithoutLast(rows: Table, ids: seq<Word>)
    requires ids != []
    ensures var n := |ids| - 1; Without(rows, ids) == Without(rows, ids[..n]) - {ids[n]}
  {
    assert ids == ids[..|ids| - 1] + [ids[|ids| - 1]];
  }

  /** No evicted item was closer, by prefix, than an item kept. */
  lemma PruneEvictsFarthest(cfg: Config, s: State, s': State, gone: Word, kept: Word)
    requires WellFormed(s.rows) && PruneStep(cfg, s, s')
    requires gone in s.rows && gone !in s'.rows && kept in s'.rows
    ensures Key(cfg.node, kept) <= Key(cfg.node, gone)
  {
    var evicted, last :| PruneRun(cfg, s, evicted, last, s');
    var i :| 0 <= i < |evicted| && evicted[i] == gone;
    var rows := Without(s.rows, evicted[..i]);
    assert Evictable(cfg, rows, gone);
    QueryMaximisesPrefix(cfg.node, rows, gone);
    assert kept !in evicted;
  }

  /** A put within the radius ends with the item stored, under its first value if it was there
      before, or with the store full and nothing in it farther, by prefix, than the item. */
  lemma PutStoresOrEvicts(cfg: Config, s: State, id: Word, value: seq<u8>, s': State)
    requires WellFormed(s.rows) && PutStep(cfg, s, id, value, s') && Dist(cfg.node, id) <= s.radius
    ensures if id in s'.rows
            then s'.rows[id].value == (if id in s.rows then s.rows[id].value else value)
            else Total(s'.rows) >= cfg.capacity && forall j :: j in s'.rows ==> Key(cfg.node, j) <= Key(cfg.node, id)
  {
    hide DistanceBetween, Top32, Total, PruneStep;
    var t := s.(rows := Insert(s.rows, id, value));
    assert WellFormed(t.rows);
    PruneBounds(cfg, t, s');
    if id !in s'.rows {
      forall j | j in s'.rows ensures Key(cfg.node, j) <= Key(cfg.node, id) {
        PruneEvictsFarthest(cfg, t, s', id, j);
      }
    }
  }

  /** Every prune terminates in some state, whichever farthest row is picked first. */
  lemma {:induction false} PruneCanStartWith(cfg: Config, s: State, f: Word)
    returns (evicted: seq<Word>, last: Option<Word>, s': State)
    requires WellFormed(s.rows) && MaximalKey(cfg.node, s.rows, f)
    ensures PruneRun(cfg, s, evicted, last, s')
    ensures evicted == [] ==> last == Some(f)
    ensures Total(s.rows) > cfg.capacity ==>
              if Total(s.rows) >= cfg.capacity + s.rows[f].size then f !in s'.rows else s'.radius == Dist(cfg.node, f)
    decreases |s.rows|
  {
    hide DistanceBetween, Top32, SqlKey, Prefix32;
    QueryMaximisesPrefix(cfg.node, s.rows, f);
    if !Evictable(cfg, s.rows, f) {
      evicted, last := [], Some(f);
      s' := if Total(s.rows) <= cfg.capacity then s else s.(radius := Dist(cfg.node, f));
      assert Without(s.rows, []) == s.rows;
    } else {
      var rest := s.rows - {f};
      if rest == map[] {
        evicted, last, s' := [f], None, State(rest, 0);
        assert evicted[..0] == [] && Without(s.rows, []) == s.rows;
        assert Without(s.rows, evicted) == rest;
      } else {
        var g := MaximalKeyExists(cfg.node, rest);
        var ev;
        ev, last, s' := PruneCanStartWith(cfg, State(rest, Dist(cfg.node, g)), g);
        evicted := [f] + ev;
        PrependEviction(cfg, s, f, g, ev, last, s');
      }
    }
  }

  lemma PrependEviction(cfg: Config, s: State, f: Word, g: Word, ev: seq<Word>, last: Option<Word>, s': State)
    requires Evictable(cfg, s.rows, f)
    requires PruneRun(cfg, State(s.rows - {f}, Dist(cfg.node, g)), ev, last, s')
    requires ev == [] ==> last == Some(g)
    ensures PruneRun(cfg, s, [f] + ev, last, s')
  {
    hide DistanceBetween, SqlKey, Top32, Prefix32;
    var rest := s.rows - {f};
    var evicted := [f] + ev;
    WithoutNone(s.rows);
    forall i | 0 <= i < |evicted| ensures Evictable(cfg, Without(s.rows, evicted[..i]), evicted[i]) {
      if i == 0 {
        assert evicted[..0] == [];
      } else {
        assert evicted[..i] == [f] + ev[..i - 1];
        assert Without(s.rows, evicted[..i]) == Without(rest, ev[..i - 1]);
        assert Evictable(cfg, Without(rest, ev[..i - 1]), ev[i - 1]);
      }
    }
    assert Without(s.rows, evicted) == Without(rest, ev);
  }
}
