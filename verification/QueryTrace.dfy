/** The trace of a content query: who answered, with whom, and the best record seen of each node. */
module QueryTrace {
  import opened Bytes
  import opened Distance
  import opened NodeRecords
  import opened Wrappers

  datatype NodeInfo = NodeInfo(enr: Enr, distance: nat)
  type Metadata = map<Word, NodeInfo>

  datatype Trace = Trace(
    target: Word,
    receivedFrom: Option<Word>,
    responses: map<Word, seq<Word>>,
    metadata: Metadata)

  datatype Call = RespondedWith(enr: Enr, others: seq<Enr>) | RespondedWithContent(enr: Enr)

  function Info(target: Word, enr: Enr): NodeInfo
  {
    NodeInfo(enr, DistanceBetween(enr.id, target))
  }

  /** `add_metadata`. */
  function AddMetadata(target: Word, m: Metadata, enr: Enr, responded: bool): Metadata
  {
    if enr.id !in m then m[enr.id := Info(target, enr)]
    else
      var known := m[enr.id].enr;
      if enr != known && ((enr.seqNo == known.seqNo && responded) || enr.seqNo > known.seqNo)
      then m[enr.id := Info(target, enr)]
      else m
  }

  function Ids(enrs: seq<Enr>): (ids: seq<Word>)
    ensures |ids| == |enrs|
    ensures forall i :: 0 <= i < |enrs| ==> ids[i] == enrs[i].id
  {
    seq(|enrs|, i requires 0 <= i < |enrs| => enrs[i].id)
  }

  // --- Records seen ---

  /** A record in the order in which it is considered; `responded` if it came from its own node. */
  datatype Sighting = Sighting(enr: Enr, responded: bool)

  function Mentions(enrs: seq<Enr>): seq<Sighting>
  {
    if enrs == [] then [] else Mentions(enrs[..|enrs| - 1]) + [Sighting(enrs[|enrs| - 1], false)]
  }

  function SightingsOf(call: Call): seq<Sighting>
  {
    match call
    case RespondedWith(enr, others) => Mentions(others) + [Sighting(enr, true)]
    case RespondedWithContent(enr) => [Sighting(enr, true)]
  }

  function Sightings(calls: seq<Call>): seq<Sighting>
  {
    if calls == [] then [] else Sightings(calls[..|calls| - 1]) + SightingsOf(calls[|calls| - 1])
  }

  function MetadataAfter(target: Word, seen: seq<Sighting>): Metadata
  {
    if seen == [] then map[]
    else
      var last := seen[|seen| - 1];
      AddMetadata(target, MetadataAfter(target, seen[..|seen| - 1]), last.enr, last.responded)
  }

  ghost predicate Matches(seen: seq<Sighting>, k: nat, id: Word, seqNo: nat)
  {
    k < |seen| && seen[k].enr.id == id && seen[k].enr.seqNo == seqNo
  }

  /** `enr` is the record to keep for its node: of the highest sequence number ever seen; among
      those the last one the node itself sent, or, if it sent none, the first one heard of. */
  ghost predicate Best(seen: seq<Sighting>, enr: Enr)
  {
    && (exists k :: 0 <= k < |seen| && seen[k].enr == enr)
    && (forall k :: 0 <= k < |seen| && seen[k].enr.id == enr.id ==> seen[k].enr.seqNo <= enr.seqNo)
    && (forall k: nat :: LastFromNode(seen, k, enr.id, enr.seqNo) ==> seen[k].enr == enr)
    && (forall k: nat :: FirstHeard(seen, k, enr.id, enr.seqNo) && NoneFromNode(seen, enr.id, enr.seqNo) ==>
          seen[k].enr == enr)
  }

  ghost predicate LastFromNode(seen: seq<Sighting>, k: nat, id: Word, seqNo: nat)
  {
    && Matches(seen, k, id, seqNo) && seen[k].responded
    && forall j: nat :: k < j < |seen| && Matches(seen, j, id, seqNo) ==> !seen[j].responded
  }

  ghost predicate FirstHeard(seen: seq<Sighting>, k: nat, id: Word, seqNo: nat)
  {
    Matches(seen, k, id, seqNo) && forall j: nat :: j < k ==> !Matches(seen, j, id, seqNo)
  }

  ghost predicate NoneFromNode(seen: seq<Sighting>, id: Word, seqNo: nat)
  {
    forall j: nat :: Matches(seen, j, id, seqNo) ==> !seen[j].responded
  }

  ghost predicate Seen(seen: seq<Sighting>, id: Word)
  {
    exists k :: 0 <= k < |seen| && seen[k].enr.id == id
  }

  lemma MatchesExtended(seen: seq<Sighting>, x: Sighting, k: nat, id: Word, seqNo: nat)
    ensures Matches(seen + [x], k, id, seqNo) <==>
            Matches(seen, k, id, seqNo) || (k == |seen| && x.enr.id == id && x.enr.seqNo == seqNo)
  {
  }

  /** Another record does not displace a better one. */
  lemma BestKept(seen: seq<Sighting>, x: Sighting, enr: Enr)
    requires Best(seen, enr)
    requires || x.enr.id != enr.id || x.enr == enr
             || x.enr.seqNo < enr.seqNo || (x.enr.seqNo == enr.seqNo && !x.responded)
    ensures Best(seen + [x], enr)
  {
    var more := seen + [x];
    var id, n := enr.id, enr.seqNo;
    forall k: nat
      ensures Matches(more, k, id, n) <==>
              Matches(seen, k, id, n) || (k == |seen| && x.enr.id == id && x.enr.seqNo == n)
    {
      MatchesExtended(seen, x, k, id, n);
    }
    var w :| 0 <= w < |seen| && seen[w].enr == enr;
    assert more[w].enr == enr && Matches(seen, w, id, n);
    forall k: nat | LastFromNode(more, k, id, n) ensures more[k].enr == enr {
      if k < |seen| {
        assert LastFromNode(seen, k, id, n) by {
          forall j: nat | k < j < |seen| && Matches(seen, j, id, n) ensures !seen[j].responded {
            assert Matches(more, j, id, n);
          }
        }
      }
    }
    forall k: nat | FirstHeard(more, k, id, n) && NoneFromNode(more, id, n) ensures more[k].enr == enr {
      if k < |seen| {
        assert FirstHeard(seen, k, id, n) by {
          forall j: nat | j < k ensures !Matches(seen, j, id, n) {
            assert !Matches(more, j, id, n);
          }
        }
        assert NoneFromNode(seen, id, n) by {
          forall j: nat | Matches(seen, j, id, n) ensures !seen[j].responded {
            assert Matches(more, j, id, n);
          }
        }
      }
    }
  }

  /** A newer record, or an equally new one from the node itself, becomes the best. */
  lemma BestReplaced(seen: seq<Sighting>, x: Sighting, known: Enr)
    requires Best(seen, known) && x.enr.id == known.id
    requires x.enr.seqNo > known.seqNo || (x.enr.seqNo == known.seqNo && x.responded)
    ensures Best(seen + [x], x.enr)
  {
    var more := seen + [x];
    var id, n := x.enr.id, x.enr.seqNo;
    assert more[|seen|] == x;
    assert Matches(more, |seen|, id, n);
    forall k: nat | Matches(more, k, id, n) && k < |seen| ensures n == known.seqNo {
      assert seen[k].enr.seqNo <= known.seqNo;
    }
  }

  lemma BestFirst(seen: seq<Sighting>, x: Sighting)
    requires !Seen(seen, x.enr.id)
    ensures Best(seen + [x], x.enr)
  {
    assert (seen + [x])[|seen|] == x;
  }

  /** The metadata of every node seen is its best record and its distance to the target. */
  lemma {:induction false} MetadataIsBest(target: Word, seen: seq<Sighting>, id: Word)
    ensures id in MetadataAfter(target, seen) <==> Seen(seen, id)
    ensures id in MetadataAfter(target, seen) ==>
              var info := MetadataAfter(target, seen)[id];
              info.enr.id == id && Best(seen, info.enr) && info.distance == DistanceBetween(id, target)
  {
    hide DistanceBetween, Best;
    if seen != [] {
      var n := |seen| - 1;
      var init, x := seen[..n], seen[n];
      assert seen == init + [x];
      MetadataIsBest(target, init, id);
      SeenExtended(init, x, id);
      var m := MetadataAfter(target, init);
      if id in m {
        var known := m[id].enr;
        if MetadataAfter(target, seen)[id] != m[id] {
          BestReplaced(init, x, known);
        } else if || x.enr.id != id || x.enr == known
                  || x.enr.seqNo < known.seqNo || (x.enr.seqNo == known.seqNo && !x.responded)
        {
          BestKept(init, x, known);
        }
      } else if id == x.enr.id {
        BestFirst(init, x);
      }
    }
  }

  lemma SeenExtended(seen: seq<Sighting>, x: Sighting, id: Word)
    ensures Seen(seen + [x], id) <==> Seen(seen, id) || x.enr.id == id
  {
    var more := seen + [x];
    assert more[|seen|] == x;
    if Seen(seen, id) {
      var k :| 0 <= k < |seen| && seen[k].enr.id == id;
      assert more[k].enr.id == id;
    }
  }

  // --- Calls ---

  function Apply(t: Trace, call: Call): Trace
  {
    match call
    case RespondedWith(enr, others) =>
      var before := if enr.id in t.responses then t.responses[enr.id] else [];
      t.(responses := t.responses[enr.id := before + Ids(others)],
         metadata := AddMetadata(t.target, MentionAll(t.target, t.metadata, others), enr, true))
    case RespondedWithContent(enr) =>
      t.(receivedFrom := Some(enr.id),
         responses := t.responses[enr.id := []],
         metadata := AddMetadata(t.target, t.metadata, enr, true))
  }

  function MentionAll(target: Word, m: Metadata, enrs: seq<Enr>): Metadata
  {
    if enrs == [] then m
    else AddMetadata(target, MentionAll(target, m, enrs[..|enrs| - 1]), enrs[|enrs| - 1], false)
  }

  function After(target: Word, calls: seq<Call>): Trace
  {
    if calls == [] then Trace(target, None, map[], map[])
    else Apply(After(target, calls[..|calls| - 1]), calls[|calls| - 1])
  }

  lemma {:induction false} MentionAllIsMetadata(target: Word, seen: seq<Sighting>, enrs: seq<Enr>)
    ensures MentionAll(target, MetadataAfter(target, seen), enrs) == MetadataAfter(target, seen + Mentions(enrs))
  {
    if enrs == [] {
      assert seen + [] == seen;
    } else {
      var n := |enrs| - 1;
      MentionAllIsMetadata(target, seen, enrs[..n]);
      var init := seen + Mentions(enrs[..n]);
      assert seen + Mentions(enrs) == init + [Sighting(enrs[n], false)];
      assert (init + [Sighting(enrs[n], false)])[..|init|] == init;
    }
  }

  lemma MetadataOfOneMore(target: Word, seen: seq<Sighting>, x: Sighting)
    ensures MetadataAfter(target, seen + [x]) == AddMetadata(target, MetadataAfter(target, seen), x.enr, x.responded)
  {
    assert (seen + [x])[..|seen|] == seen;
  }

  lemma MetadataOfNothing(target: Word)
    ensures MetadataAfter(target, []) == map[]
  {
  }

  lemma {:induction false} MetadataOfCalls(target: Word, calls: seq<Call>)
    ensures After(target, calls).metadata == MetadataAfter(target, Sightings(calls))
    ensures After(target, calls).target == target
  {
    hide AddMetadata, MetadataAfter, MentionAll, Mentions;
    if calls == [] {
      MetadataOfNothing(target);
    } else {
      var n := |calls| - 1;
      var seen := Sightings(calls[..n]);
      MetadataOfCalls(target, calls[..n]);
      match calls[n]
      case RespondedWith(enr, others) =>
        MentionAllIsMetadata(target, seen, others);
        var more := seen + Mentions(others);
        assert Sightings(calls) == more + [Sighting(enr, true)];
        MetadataOfOneMore(target, more, Sighting(enr, true));
      case RespondedWithContent(enr) =>
        MetadataOfOneMore(target, seen, Sighting(enr, true));
    }
  }

  // --- The invariant ---

  /** Every id the trace mentions anywhere has metadata. */
  ghost predicate AllKnown(t: Trace)
  {
    && (forall id :: id in t.responses ==> id in t.metadata)
    && (forall id, i :: id in t.responses && 0 <= i < |t.responses[id]| ==> t.responses[id][i] in t.metadata)
    && (t.receivedFrom.Some? ==> t.receivedFrom.value in t.responses)
  }

  lemma AddMetadataKeys(target: Word, m: Metadata, enr: Enr, responded: bool)
    ensures AddMetadata(target, m, enr, responded).Keys == m.Keys + {enr.id}
  {
  }

  lemma {:induction false} MentionAllKeys(target: Word, m: Metadata, enrs: seq<Enr>)
    ensures forall id :: id in m ==> id in MentionAll(target, m, enrs)
    ensures forall i :: 0 <= i < |enrs| ==> enrs[i].id in MentionAll(target, m, enrs)
  {
    hide AddMetadata;
    if enrs != [] {
      var n := |enrs| - 1;
      MentionAllKeys(target, m, enrs[..n]);
      AddMetadataKeys(target, MentionAll(target, m, enrs[..n]), enrs[n], false);
      assert forall i :: 0 <= i < n ==> enrs[..n][i] == enrs[i];
    }
  }

  lemma {:induction false} TraceKnowsItsNodes(target: Word, calls: seq<Call>)
    ensures AllKnown(After(target, calls))
  {
    hide AddMetadata;
    if calls != [] {
      var n := |calls| - 1;
      TraceKnowsItsNodes(target, calls[..n]);
      var t := After(target, calls[..n]);
      match calls[n]
      case RespondedWith(enr, others) =>
        MentionAllKeys(t.target, t.metadata, others);
        AddMetadataKeys(t.target, MentionAll(t.target, t.metadata, others), enr, true);
      case RespondedWithContent(enr) =>
        AddMetadataKeys(t.target, t.metadata, enr, true);
    }
  }

  /** After any sequence of calls: every id in the responses, in any list of nodes answered with,
      or named as the source of the content has metadata; that metadata is the best record seen of
      the node, with its distance to the target; and the source of the content has a response. */
  lemma TraceInvariant(target: Word, calls: seq<Call>)
    ensures var t := After(target, calls);
            && AllKnown(t)
            && forall id :: id in t.metadata ==>
                 && t.metadata[id].enr.id == id
                 && Best(Sightings(calls), t.metadata[id].enr)
                 && t.metadata[id].distance == DistanceBetween(id, target)
  {
    hide Best, DistanceBetween, AllKnown;
    TraceKnowsItsNodes(target, calls);
    MetadataOfCalls(target, calls);
    forall id | id in After(target, calls).metadata
      ensures var info := After(target, calls).metadata[id];
              info.enr.id == id && Best(Sightings(calls), info.enr) && info.distance == DistanceBetween(id, target)
    {
      MetadataIsBest(target, Sightings(calls), id);
    }
  }

  /** Call `i` gave `id` content, which starts its list of answers afresh. */
  ghost predicate GaveContent(calls: seq<Call>, i: nat, id: Word)
  {
    i < |calls| && calls[i].RespondedWithContent? && calls[i].enr.id == id
  }

  /** Call `i` reported `x` as an answer of `id`. */
  ghost predicate Reported(calls: seq<Call>, i: nat, id: Word, x: Word)
  {
    i < |calls| && calls[i].RespondedWith? && calls[i].enr.id == id && x in Ids(calls[i].others)
  }

  /** It did, and `id` has not given content since. */
  ghost predicate StillListed(calls: seq<Call>, i: nat, id: Word, x: Word)
  {
    Reported(calls, i, id, x) && forall j: nat :: i < j ==> !GaveContent(calls, j, id)
  }

  ghost predicate LastContent(calls: seq<Call>, i: nat, id: Word)
  {
    GaveContent(calls, i, id) && forall j :: i < j < |calls| ==> !calls[j].RespondedWithContent?
  }

  lemma StillListedExtended(calls: seq<Call>, last: Call, i: nat, id: Word, x: Word)
    ensures StillListed(calls + [last], i, id, x) <==>
            || (i < |calls| && StillListed(calls, i, id, x) && !(last.RespondedWithContent? && last.enr.id == id))
            || (i == |calls| && last.RespondedWith? && last.enr.id == id && x in Ids(last.others))
  {
    hide Ids;
    var more := calls + [last];
    forall j: nat ensures GaveContent(more, j, id) <==>
      GaveContent(calls, j, id) || (j == |calls| && last.RespondedWithContent? && last.enr.id == id) {}
    if i < |calls| && StillListed(more, i, id, x) {
      assert !GaveContent(more, |calls|, id);
      forall j: nat | i < j ensures !GaveContent(calls, j, id) {
        assert !GaveContent(more, j, id);
      }
    }
  }

  lemma LastContentExtended(calls: seq<Call>, last: Call, i: nat, id: Word)
    ensures LastContent(calls + [last], i, id) <==>
            if last.RespondedWithContent? then i == |calls| && last.enr.id == id else LastContent(calls, i, id)
  {
    var more := calls + [last];
    assert more[|calls|] == last;
    assert forall j :: 0 <= j < |calls| ==> more[j] == calls[j];
  }

  /** What the trace says of who answered: for each node, the ids it answered with since it last
      gave content; and the node that gave content last. */
  lemma {:induction false} TraceRecordsAnswers(target: Word, calls: seq<Call>, id: Word, x: Word)
    ensures var t := After(target, calls);
            && (id in t.responses && x in t.responses[id] <==> exists i: nat :: StillListed(calls, i, id, x))
            && (t.receivedFrom == Some(id) <==> exists i: nat :: LastContent(calls, i, id))
  {
    hide AddMetadata, MentionAll, Ids, StillListed, LastContent;
    if calls == [] {
      NothingRecorded(id, x);
    } else {
      var n := |calls| - 1;
      var init, last := calls[..n], calls[n];
      assert calls == init + [last];
      TraceRecordsAnswers(target, init, id, x);
      forall i: nat { StillListedExtended(init, last, i, id, x); }
      forall i: nat { LastContentExtended(init, last, i, id); }
      var listed := exists i: nat :: StillListed(init, i, id, x);
      if listed {
        var i: nat :| StillListed(init, i, id, x);
        StillListedRange(init, i, id, x);
        assert last.RespondedWith? || last.enr.id != id ==> StillListed(calls, i, id, x);
      }
      if last.RespondedWith? && last.enr.id == id && x in Ids(last.others) {
        assert StillListed(calls, n, id, x);
      }
      if last.RespondedWithContent? && last.enr.id == id {
        assert LastContent(calls, n, id);
      }
    }
  }

  lemma StillListedRange(calls: seq<Call>, i: nat, id: Word, x: Word)
    requires StillListed(calls, i, id, x)
    ensures i < |calls|
  {
  }

  lemma NothingRecorded(id: Word, x: Word)
    ensures forall i: nat :: !StillListed([], i, id, x)
    ensures forall i: nat :: !LastContent([], i, id)
  {
  }

  function Listed(call: Call, id: Word): seq<Word>
  {
    if call.RespondedWith? && call.enr.id == id then Ids(call.others) else []
  }

  /** The ids `id` answered with in these calls, in order and with repetitions. */
  function Answers(calls: seq<Call>, id: Word): seq<Word>
  {
    if calls == [] then [] else Answers(calls[..|calls| - 1], id) + Listed(calls[|calls| - 1], id)
  }

  lemma AnswersNext(calls: seq<Call>, k: nat, id: Word)
    requires k < |calls|
    ensures var n := |calls| - 1;
            Answers(calls[k..], id) == Answers(calls[..n][k..], id) + Listed(calls[n], id)
  {
    hide Listed;
    assert calls[k..][..|calls| - 1 - k] == calls[..|calls| - 1][k..];
  }

  /** The calls from `k` on are those after the last time `id` gave content, or all if it never did. */
  ghost predicate SinceContent(calls: seq<Call>, k: nat, id: Word)
  {
    && k <= |calls|
    && (k > 0 ==> GaveContent(calls, k - 1, id))
    && forall j: nat :: k <= j ==> !GaveContent(calls, j, id)
  }

  lemma SinceContentShorter(calls: seq<Call>, last: Call, k: nat, id: Word)
    requires SinceContent(calls + [last], k, id) && k <= |calls|
    ensures SinceContent(calls, k, id)
    ensures !(last.RespondedWithContent? && last.enr.id == id)
  {
    var more := calls + [last];
    assert !GaveContent(more, |calls|, id);
    forall j: nat ensures GaveContent(calls, j, id) ==> GaveContent(more, j, id) {}
    if k > 0 {
      assert GaveContent(more, k - 1, id);
    }
  }

  lemma {:induction false} ListSince(target: Word, calls: seq<Call>, id: Word, k: nat)
    requires SinceContent(calls, k, id)
    ensures k <= |calls|
    ensures ListOf(After(target, calls), id) == Answers(calls[k..], id)
    decreases |calls|
  {
    hide Ids, SinceContent, Answers, Apply;
    SinceContentWithin(calls, k, id);
    if calls == [] {
      NoList(target, id);
    } else {
      var n := |calls| - 1;
      var init, last := calls[..n], calls[n];
      assert calls == init + [last];
      ListAfter(After(target, init), last, id);
      if k == |calls| {
        assert calls[k..] == [];
        NoList(target, id);
      } else {
        SinceContentShorter(init, last, k, id);
        ListSince(target, init, id, k);
        AnswersNext(calls, k, id);
      }
    }
  }

  function ListOf(t: Trace, id: Word): seq<Word>
  {
    if id in t.responses then t.responses[id] else []
  }

  lemma NoList(target: Word, id: Word)
    ensures ListOf(After(target, []), id) == [] == Answers([], id)
  {
  }

  lemma ListAfter(t: Trace, call: Call, id: Word)
    ensures ListOf(Apply(t, call), id) ==
            if call.RespondedWithContent? && call.enr.id == id then [] else ListOf(t, id) + Listed(call, id)
  {
    hide AddMetadata, MentionAll, Ids;
    assert ListOf(t, id) + [] == ListOf(t, id);
  }

  lemma SinceContentWithin(calls: seq<Call>, k: nat, id: Word)
    requires SinceContent(calls, k, id)
    ensures k <= |calls|
    ensures k == |calls| > 0 ==> calls[k - 1].RespondedWithContent? && calls[k - 1].enr.id == id
  {
  }

  lemma LastGiven(calls: seq<Call>, id: Word) returns (k: nat)
    ensures SinceContent(calls, k, id)
  {
    k := |calls|;
    while k > 0 && !GaveContent(calls, k - 1, id)
      invariant k <= |calls|
      invariant forall j: nat :: k <= j ==> !GaveContent(calls, j, id)
    {
      k := k - 1;
    }
  }

  /** The list of each node in full: what it answered with since it last gave content, in order and
      with repetitions; and it has a list exactly if it answered at all. */
  lemma TraceListsAnswers(target: Word, calls: seq<Call>, id: Word) returns (k: nat)
    ensures SinceContent(calls, k, id)
    ensures ListOf(After(target, calls), id) == Answers(calls[k..], id)
    ensures id in After(target, calls).responses <==> exists i :: 0 <= i < |calls| && calls[i].enr.id == id
  {
    hide After, Answers, ListOf;
    k := LastGiven(calls, id);
    ListSince(target, calls, id, k);
    HasList(target, calls, id);
  }

  lemma {:induction false} HasList(target: Word, calls: seq<Call>, id: Word)
    ensures id in After(target, calls).responses <==> exists i :: 0 <= i < |calls| && calls[i].enr.id == id
  {
    hide AddMetadata, MentionAll, Ids;
    if calls != [] {
      var n := |calls| - 1;
      HasList(target, calls[..n], id);
      assert forall i :: 0 <= i < n ==> calls[..n][i] == calls[i];
    }
  }

  // --- The trace object ---

  class Recorder {
    const target: Word
    var receivedFrom: Option<Word>
    var responses: map<Word, seq<Word>>
    var metadata: Metadata

    ghost function Snapshot(): Trace
      reads this
    {
      Trace(target, receivedFrom, responses, metadata)
    }

    constructor (target: Word)
      ensures Snapshot() == After(target, [])
    {
      this.target := target;
      receivedFrom, responses, metadata := None, map[], map[];
    }

    method NodeRespondedWith(enr: Enr, others: seq<Enr>)
      modifies this
      ensures Snapshot() == Apply(old(Snapshot()), RespondedWith(enr, others))
      ensures receivedFrom == old(receivedFrom)
      ensures responses == old(responses)[enr.id :=
                (if enr.id in old(responses) then old(responses)[enr.id] else []) + Ids(others)]
    {
      hide AddMetadata;
      var ids: seq<Word> := [];
      for i := 0 to |others|
        invariant metadata == MentionAll(target, old(metadata), others[..i])
        invariant ids == Ids(others[..i])
        invariant receivedFrom == old(receivedFrom) && responses == old(responses)
      {
        assert others[..i + 1][..i] == others[..i];
        metadata := AddMetadata(target, metadata, others[i], false);
        ids := ids + [others[i].id];
      }
      assert others[..|others|] == others;
      var before := if enr.id in responses then responses[enr.id] else [];
      responses := responses[enr.id := before + ids];
      metadata := AddMetadata(target, metadata, enr, true);
    }

    method NodeRespondedWithContent(enr: Enr)
      modifies this
      ensures Snapshot() == Apply(old(Snapshot()), RespondedWithContent(enr))
      ensures receivedFrom == Some(enr.id) && responses == old(responses)[enr.id := []]
    {
      receivedFrom := Some(enr.id);
      responses := responses[enr.id := []];
      metadata := AddMetadata(target, metadata, enr, true);
    }
  }
}
