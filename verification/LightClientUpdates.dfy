/** The light-client update table of the beacon store: written by ranges, first writer wins. */
module LightClientUpdates {
  import opened Wrappers

  /** `ssz_types::typenum::U128`. */
  const MAX_REQUEST: nat := 128

  type Table<U> = map<nat, U>

  /** The periods from `start` on, one per update that falls within the key's count. */
  datatype Put<U> = Put(start: nat, updates: seq<U>)

  datatype Got<U> = Found(updates: seq<U>) | NotFound | TooMany
  datatype Decision = Store | AlreadyStored

  function PutFor<U>(start: nat, count: nat, updates: seq<U>): (put: Put<U>)
    ensures put.start == start && |put.updates| == Min(count, |updates|) && put.updates <= updates
  {
    Put(start, if |updates| <= count then updates else updates[..count])
  }

  ghost predicate Covers<U>(put: Put<U>, period: nat)
  {
    put.start <= period < put.start + |put.updates|
  }

  ghost function UpdateFor<U>(put: Put<U>, period: nat): U
    requires Covers(put, period)
  {
    put.updates[period - put.start]
  }

  /** `INSERT OR IGNORE INTO lc_update`. */
  function Insert<U>(t: Table<U>, period: nat, u: U): Table<U>
  {
    if period in t then t else t[period := u]
  }

  /** The table after a range put: rows already there stay. */
  ghost function AfterPut<U>(t: Table<U>, put: Put<U>): Table<U>
  {
    (map p: nat | put.start <= p < put.start + |put.updates| && Covers(put, p) :: UpdateFor(put, p)) + t
  }

  lemma AfterPutContents<U>(t: Table<U>, put: Put<U>)
    ensures var t' := AfterPut(t, put);
            && (forall p: nat :: p in t' <==> p in t || put.start <= p < put.start + |put.updates|)
            && forall p :: p in t' ==> t'[p] == if p in t then t[p] else put.updates[p - put.start]
  {
  }

  lemma EmptyPut<U>(t: Table<U>, start: nat)
    ensures AfterPut(t, Put(start, [])) == t
  {
  }

  lemma AfterPutStep<U>(t: Table<U>, start: nat, updates: seq<U>, u: U)
    ensures AfterPut(t, Put(start, updates + [u])) == Insert(AfterPut(t, Put(start, updates)), start + |updates|, u)
  {
    var one, two := Put(start, updates), Put(start, updates + [u]);
    assert forall p: nat :: Covers(two, p) <==> Covers(one, p) || p == start + |updates|;
    assert forall p: nat :: Covers(one, p) ==> UpdateFor(two, p) == UpdateFor(one, p);
  }

  /** The table after a sequence of puts over an empty one. */
  ghost function AfterPuts<U>(puts: seq<Put<U>>): Table<U>
  {
    if puts == [] then map[] else AfterPut(AfterPuts(puts[..|puts| - 1]), puts[|puts| - 1])
  }

  lemma AfterOneMore<U>(puts: seq<Put<U>>, put: Put<U>)
    ensures AfterPuts(puts + [put]) == AfterPut(AfterPuts(puts), put)
  {
    assert (puts + [put])[..|puts|] == puts;
  }

  /** `put` number `i` is the first to cover `period`. */
  ghost predicate FirstToCover<U>(puts: seq<Put<U>>, i: nat, period: nat)
  {
    i < |puts| && Covers(puts[i], period) && forall j :: 0 <= j < i ==> !Covers(puts[j], period)
  }

  ghost predicate Covered<U>(puts: seq<Put<U>>, period: nat)
  {
    exists i :: 0 <= i < |puts| && Covers(puts[i], period)
  }

  /** Whatever was put: a period is there exactly when some put covered it, with the update of
      the first put that did. */
  lemma {:induction false} FirstWriterWins<U>(puts: seq<Put<U>>, period: nat)
    ensures var t := AfterPuts(puts); period in t <==> Covered(puts, period)
    ensures var t := AfterPuts(puts);
            forall i: nat :: FirstToCover(puts, i, period) ==> period in t && t[period] == UpdateFor(puts[i], period)
  {
    var t := AfterPuts(puts);
    if puts != [] {
      var n := |puts| - 1;
      var init := puts[..n];
      FirstWriterWins(init, period);
      assert puts == init + [puts[n]];
      if Covered(init, period) {
        var i :| 0 <= i < n && Covers(init[i], period);
        assert Covers(puts[i], period);
      }
      forall i: nat | FirstToCover(puts, i, period)
        ensures period in t && t[period] == UpdateFor(puts[i], period)
      {
        if i < n {
          assert FirstToCover(init, i, period);
        } else {
          assert !Covered(init, period);
        }
      }
    }
  }

  // --- Reading a range ---

  ghost predicate AllThere<U>(t: Table<U>, start: nat, count: nat)
  {
    forall p :: start <= p < start + count ==> p in t
  }

  ghost function Range<U>(t: Table<U>, start: nat, count: nat): seq<U>
    requires AllThere(t, start, count)
  {
    seq(count, i requires 0 <= i < count => t[start + i])
  }

  ghost function RangeResult<U>(t: Table<U>, start: nat, count: nat): Got<U>
  {
    if !AllThere(t, start, count) then NotFound
    else if count > MAX_REQUEST then TooMany
    else Found(Range(t, start, count))
  }

  /** A range of at most 128 periods is returned exactly when every period of it was covered by
      some put, and then element by element as the first put to cover it wrote it. */
  lemma RangeIsFirstWrites<U>(puts: seq<Put<U>>, start: nat, count: nat)
    requires count <= 128
    ensures RangeResult(AfterPuts(puts), start, count).Found? <==>
            forall p :: start <= p < start + count ==> Covered(puts, p)
    ensures RangeResult(AfterPuts(puts), start, count).Found? ==>
              var us := RangeResult(AfterPuts(puts), start, count).updates;
              && |us| == count
              && forall p: nat, i: nat :: start <= p < start + count && FirstToCover(puts, i, p) ==>
                   us[p - start] == UpdateFor(puts[i], p)
  {
    hide AfterPuts, Covered;
    var t := AfterPuts(puts);
    forall p: nat ensures p in t <==> Covered(puts, p) {
      FirstWriterWins(puts, p);
    }
    forall p: nat, i: nat | start <= p < start + count && FirstToCover(puts, i, p)
      ensures p in t && t[p] == UpdateFor(puts[i], p)
    {
      FirstWriterWins(puts, p);
    }
  }

  /** Adjacent ranges read together are the two read apart, joined. */
  lemma AdjacentRangesJoin<U>(t: Table<U>, start: nat, a: nat, b: nat)
    requires a + b <= 128
    ensures RangeResult(t, start, a + b).Found? <==>
            RangeResult(t, start, a).Found? && RangeResult(t, start + a, b).Found?
    ensures RangeResult(t, start, a + b).Found? ==>
              RangeResult(t, start, a + b).updates ==
              RangeResult(t, start, a).updates + RangeResult(t, start + a, b).updates
  {
    if AllThere(t, start, a) && AllThere(t, start + a, b) {
      forall p | start <= p < start + (a + b) ensures p in t {
        if p >= start + a {
          assert start + a <= p < start + a + b;
        }
      }
      assert Range(t, start, a + b) == Range(t, start, a) + Range(t, start + a, b);
    }
  }

  // --- The store object ---

  class UpdateStore<U> {
    var table: Table<U>
    ghost var puts: seq<Put<U>>

    ghost predicate Valid()
      reads this
    {
      table == AfterPuts(puts)
    }

    constructor ()
      ensures Valid() && puts == []
    {
      table, puts := map[], [];
    }

    /** The `LightClientUpdatesByRange` arm of `store`. */
    method StoreRange(start: nat, count: nat, updates: seq<U>)
      requires Valid()
      modifies this
      ensures Valid() && puts == old(puts) + [PutFor(start, count, updates)]
      ensures forall p: nat :: p in table <==>
                p in old(table) || start <= p < start + Min(count, |updates|)
      ensures forall p :: p in table ==>
                table[p] == if p in old(table) then old(table)[p] else updates[p - start]
    {
      hide AfterPut, AfterPuts, Insert;
      InsertAll(start, if |updates| <= count then updates else updates[..count]);
      ghost var put := PutFor(start, count, updates);
      AfterPutContents(old(table), put);
      AfterOneMore(puts, put);
      puts := puts + [put];
    }

    /** The loop over the zipped periods and updates. */
    method InsertAll(start: nat, updates: seq<U>)
      modifies this`table
      ensures table == AfterPut(old(table), Put(start, updates))
    {
      hide AfterPut, Insert;
      EmptyPut(table, start);
      assert updates[..0] == [];
      for i := 0 to |updates|
        invariant table == AfterPut(old(table), Put(start, updates[..i]))
      {
        AfterPutStep(old(table), start, updates[..i], updates[i]);
        assert updates[..i + 1] == updates[..i] + [updates[i]];
        table := Insert(table, start + i, updates[i]);
      }
      assert updates[..|updates|] == updates;
    }

    /** The range arm of `get`: stops at the first missing period. */
    method GetRange(start: nat, count: nat) returns (r: Got<U>)
      ensures r == RangeResult(table, start, count)
      ensures r == NotFound <==> exists p :: start <= p < start + count && p !in table
      ensures r == TooMany <==> (forall p :: start <= p < start + count ==> p in table) && count > 128
      ensures r.Found? ==> |r.updates| == count && forall i :: 0 <= i < count ==> r.updates[i] == table[start + i]
    {
      var content: seq<U> := [];
      for i := 0 to count
        invariant AllThere(table, start, i) && content == Range(table, start, i)
      {
        if start + i !in table {
          return NotFound;
        }
        content := content + [table[start + i]];
      }
      r := if |content| > MAX_REQUEST then TooMany else Found(content);
    }

    /** The range arm of `is_key_within_radius_and_unavailable`. */
    method ShouldStore(start: nat, count: nat) returns (d: Decision)
      requires Valid()
      ensures d == Store <==> forall p :: start <= p < start + count ==> !Covered(puts, p)
    {
      for i := 0 to count
        invariant forall p :: start <= p < start + i ==> !Covered(puts, p)
      {
        FirstWriterWins(puts, start + i);
        if start + i in table {
          return AlreadyStored;
        }
      }
      d := Store;
    }
  }
}
