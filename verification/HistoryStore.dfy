/** The store as it runs: a table and a radius updated in place. */
module HistoryStore {
  import opened Bytes
  import opened Distance
  import opened HistoryStorage
  import opened Wrappers

  const BYTES_IN_MB: nat := 1000 * 1000

  class ContentStore {
    const cfg: Config
    var rows: Table
    var radius: nat

    ghost function Snapshot(): State
      reads this
    {
      State(rows, radius)
    }

    /** `HistoryStorage::new` on a database that already holds `rows`. */
    constructor (node: Word, capacityMb: nat, rows: Table)
      requires WellFormed(rows)
      ensures cfg == Config(node, capacityMb * 1_000_000)
      ensures WellFormed(this.rows)
      ensures OpenStep(cfg, rows, Snapshot())
      ensures rows == map[] ==> this.rows == map[] && radius == if capacityMb == 0 then 0 else Pow2(256) - 1
      ensures 0 < |rows| && Total(rows) <= cfg.capacity ==> this.rows == rows && radius == Pow2(256) - 1
    {
      cfg := Config(node, capacityMb * BYTES_IN_MB);
      this.rows := rows;
      radius := MAX_DISTANCE;
      new;
      if |rows| == 0 {
        if cfg.capacity == 0 {
          radius := 0;
        }
      } else {
        var _ := Prune();
        PruneBounds(cfg, State(rows, MAX_DISTANCE), Snapshot());
      }
    }

    method TotalSize() returns (total: nat)
      ensures total == Total(rows)
    {
      total := 0;
      var left := rows;
      while left != map[]
        invariant total + Total(left) == Total(rows)
        decreases |left|
      {
        var id :| id in left;
        TotalRemove(left, id);
        total := total + left[id].size;
        left := left - {id};
      }
    }

    /** `find_farthest_content_id`: the table is read in no particular order. */
    method FindFarthest() returns (f: Option<Word>)
      ensures f.None? <==> rows == map[]
      ensures f.Some? ==> MayReturn(cfg.node, rows, f.value)
    {
      hide SqlKey, Prefix32;
      if rows == map[] {
        return None;
      }
      var node := ByteVectorToU32(cfg.node);
      var best :| best in rows;
      var left := rows;
      while left != map[]
        invariant left.Keys <= rows.Keys && best in rows
        invariant forall j :: j in rows && j !in left ==>
                    SqlKey(node, rows[j].short) <= SqlKey(node, rows[best].short)
        decreases |left|
      {
        var id :| id in left;
        if SqlKey(node, rows[best].short) < SqlKey(node, rows[id].short) {
          best := id;
        }
        RemovalCounts(left, id);
        left := left - {id};
      }
      f := Some(best);
    }

    /** `prune_db`. The subtraction cannot underflow and the farthest id is always there. */
    method Prune() returns (removed: nat)
      requires WellFormed(rows)
      modifies this
      ensures WellFormed(rows)
      ensures PruneStep(cfg, old(Snapshot()), Snapshot())
      ensures removed == |old(rows)| - |rows|
    {
      hide DistanceBetween, SqlKey, Top32, Prefix32, PruneRun;
      ghost var start := Snapshot();
      ghost var evicted: seq<Word> := [];
      WithoutNone(rows);
      removed := 0;
      var farthest := FindFarthest();
      var total := TotalSize();
      while total > cfg.capacity
        invariant total == Total(rows) && WellFormed(rows)
        invariant rows == Without(start.rows, evicted) && EvictedInOrder(cfg, start.rows, evicted)
        invariant rows != map[] ==> farthest.Some? && MayReturn(cfg.node, rows, farthest.value)
        invariant radius == if evicted == [] then start.radius
                            else if rows == map[] then 0 else Dist(cfg.node, farthest.value)
        invariant removed == |start.rows| - |rows|
        decreases |rows|
      {
        var id := farthest.value;
        TotalRemove(rows, id);
        var remaining: nat := total - rows[id].size;
        if remaining < cfg.capacity {
          radius := Dist(cfg.node, id);
          PruneEndsOverfull(cfg, start, evicted, id, rows);
          return;
        }
        EvictOneMore(cfg, start.rows, evicted, id);
        evicted := evicted + [id];
        rows := rows - {id};
        removed := removed + 1;
        var next := FindFarthest();
        match next {
          case None =>
            radius := 0;
          case Some(f) =>
            radius := Dist(cfg.node, f);
            farthest := Some(f);
        }
        total := TotalSize();
      }
      PruneEndsWithinCapacity(cfg, start, evicted, farthest, Snapshot());
    }

    /** `store`. */
    method Put(id: Word, value: seq<u8>) returns (r: PutResult)
      requires WellFormed(rows)
      modifies this
      ensures WellFormed(rows)
      ensures PutStep(cfg, old(Snapshot()), id, value, Snapshot())
      ensures r == if DistanceBetween(id, cfg.node) > old(radius)
                   then InsufficientRadius(old(radius), DistanceBetween(id, cfg.node)) else Stored
      ensures r != Stored ==> rows == old(rows) && radius == old(radius)
    {
      var distance := ComputeDistance(id, cfg.node);
      if distance > radius {
        return InsufficientRadius(radius, distance);
      }
      rows := Insert(rows, id, value);
      var _ := Prune();
      r := Stored;
    }

    /** `is_key_within_radius_and_unavailable`. */
    method IsKeyWithinRadiusAndUnavailable(id: Word) returns (r: ShouldWeStoreContent)
      ensures r.Store? <==> DistanceBetween(id, cfg.node) <= radius && id !in rows
      ensures r.NotWithinRadius? <==> DistanceBetween(id, cfg.node) > radius
    {
      var distance := ComputeDistance(id, cfg.node);
      r := if distance > radius then NotWithinRadius
           else if id in rows then AlreadyStored
           else Store;
    }
  }
}
