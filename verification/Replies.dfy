/** Replies to FINDNODES and FINDCONTENT: what is sent, in which order, and how large it gets. */
module Replies {
  import opened Bytes
  import opened Distance
  import opened NodeRecords
  import opened Sorting
  import opened Ssz
  import opened Wire
  import opened Wrappers

  const FIND_CONTENT_MAX_NODES: nat := 32
  const FIND_NODES_MAX_NODES: nat := 32

  /** `ssz_bytes_len` of a list of records. */
  function EnrsSize(enrs: seq<Enr>): nat
  {
    if enrs == [] then 0 else OFFSET_BYTES + |enrs[|enrs| - 1].rlp| + EnrsSize(enrs[..|enrs| - 1])
  }

  /** `kept` is the longest prefix of `enrs` that fits in `max` bytes. */
  ghost predicate LongestFit(kept: seq<Enr>, enrs: seq<Enr>, max: nat)
  {
    && kept <= enrs
    && EnrsSize(kept) <= max
    && forall k :: |kept| < k <= |enrs| ==> EnrsSize(enrs[..k]) > max
  }

  /** `pop_while_ssz_bytes_len_gt`. */
  method PopWhileSszBytesLenGt(enrs: seq<Enr>, max: nat) returns (kept: seq<Enr>)
    ensures LongestFit(kept, enrs, max)
    ensures kept == enrs[..|kept|] && EnrsSize(kept) <= max
    ensures forall k :: |kept| < k <= |enrs| ==> EnrsSize(enrs[..k]) > max
  {
    hide EnrsSize;
    kept := enrs;
    EmptySize();
    while EnrsSize(kept) > max
      invariant kept <= enrs
      invariant forall k :: |kept| < k <= |enrs| ==> EnrsSize(enrs[..k]) > max
      decreases |kept|
    {
      assert kept == enrs[..|kept|];
      kept := kept[..|kept| - 1];
    }
  }

  lemma EmptySize()
    ensures EnrsSize([]) == 0
  {
  }

  lemma {:induction false} SizeIsEncodedLength(c: EnrCodec<Enr>, enrs: seq<Enr>)
    requires forall e: Enr :: c.encode(e) == e.rlp
    ensures |EncodeList(EncodeEnrs(c, enrs))| == EnrsSize(enrs)
  {
    EncodedLength(EncodeEnrs(c, enrs));
    ConcatSize(c, enrs);
  }

  lemma {:induction false} ConcatSize(c: EnrCodec<Enr>, enrs: seq<Enr>)
    requires forall e: Enr :: c.encode(e) == e.rlp
    ensures OFFSET_BYTES * |enrs| + |Concat(EncodeEnrs(c, enrs))| == EnrsSize(enrs)
  {
    if enrs != [] {
      var n := |enrs| - 1;
      ConcatSize(c, enrs[..n]);
      EncodeEnrsSnoc(c, enrs);
      var items := EncodeEnrs(c, enrs);
      ConcatSplit(items, n);
      assert items[..n] == EncodeEnrs(c, enrs[..n]) && items[n..] == [enrs[n].rlp];
      assert Concat([enrs[n].rlp]) == enrs[n].rlp + Concat([]);
    }
  }

  lemma {:induction false} EncodeEnrsSnoc(c: EnrCodec<Enr>, enrs: seq<Enr>)
    requires enrs != []
    ensures EncodeEnrs(c, enrs) == EncodeEnrs(c, enrs[..|enrs| - 1]) + [c.encode(enrs[|enrs| - 1])]
  {
    if |enrs| > 1 {
      EncodeEnrsSnoc(c, enrs[1..]);
      assert enrs[1..][..|enrs| - 2] == enrs[..|enrs| - 1][1..];
    }
  }

  /** What both handlers rely on: records trimmed to the constants fit a talk response. */
  lemma TrimmedRepliesFit(c: EnrCodec<Enr>, enrs: seq<Enr>)
    requires forall e: Enr :: c.encode(e) == e.rlp
    ensures EnrsSize(enrs) <= 1165 ==>
              |Encode(c, Nodes(1, enrs))| <= 1171
    ensures EnrsSize(enrs) <= 1165 ==>
              |Encode(c, ContentMessage(Enrs(enrs)))| <= 1171
  {
    hide EncodeList, EnrsSize, ToLittleEndian;
    SizeIsEncodedLength(c, enrs);
  }

  // --- FINDNODES ---

  ghost predicate Ascending(s: seq<nat>)
  {
    forall i, j :: 0 <= i < j < |s| ==> s[i] < s[j]
  }

  function Same(d: nat): nat { d }

  /** `dedup`: of equal neighbours one is kept. */
  function Dedup(s: seq<nat>): (r: seq<nat>)
    ensures forall d :: d in r <==> d in s
  {
    if |s| < 2 then s
    else
      assert s == [s[0]] + s[1..];
      if s[0] == s[1] then Dedup(s[1..]) else [s[0]] + Dedup(s[1..])
  }

  /** Sorted and without repetition. */
  function Normalized(distances: seq<nat>): seq<nat>
  {
    Dedup(SortBy(Same, distances))
  }

  lemma {:induction false} DedupAscends(s: seq<nat>)
    requires SortedBy(Same, s)
    ensures Ascending(Dedup(s))
  {
    if |s| >= 2 {
      DedupAscends(s[1..]);
      var rest := Dedup(s[1..]);
      if s[0] != s[1] {
        forall j | 0 <= j < |rest| ensures s[0] < rest[j] {
          assert rest[j] in s[1..];
          var k :| 0 <= k < |s[1..]| && s[1..][k] == rest[j];
          assert Same(s[0]) <= Same(s[1]) && (k > 0 ==> Same(s[1]) <= Same(s[k + 1]));
        }
      }
    }
  }

  lemma NormalizedCorrect(distances: seq<nat>)
    ensures Ascending(Normalized(distances))
    ensures forall d :: d in Normalized(distances) <==> d in distances
  {
    SortByCorrect(Same, distances);
    DedupAscends(SortBy(Same, distances));
    forall d ensures d in SortBy(Same, distances) <==> d in distances {
      SortByMember(Same, distances, d);
    }
  }

  function AtLog(local: Word, d: nat): Node -> bool
  {
    (n: Node) => Log2(DistanceBetween(local, n.enr.id)) == Some(d)
  }

  /** The routing table's `nodes_by_distances`, before its limit: bucket by bucket. */
  function InBuckets(local: Word, table: seq<Node>, ds: seq<nat>): seq<Node>
  {
    if ds == [] then [] else FilterBy(AtLog(local, ds[0]), table) + InBuckets(local, table, ds[1..])
  }

  function Limited(nodes: seq<Node>): seq<Node>
  {
    if |nodes| <= FIND_NODES_MAX_NODES then nodes else nodes[..FIND_NODES_MAX_NODES]
  }

  predicate AsksForUs(distances: seq<nat>)
  {
    Normalized(distances) != [] && Normalized(distances)[0] == 0
  }

  /** The entries that compete for the limit, connected or not. */
  function Candidates(local: Word, table: seq<Node>, distances: seq<nat>): seq<Node>
  {
    var ds := Normalized(distances);
    InBuckets(local, table, if AsksForUs(distances) then ds[1..] else ds)
  }

  /** `nodes_by_distance`: our own record for distance zero, then connected entries of the buckets
      asked for, nearest bucket first; the limit applies before disconnected entries are dropped. */
  function NodesByDistance(local: Enr, table: seq<Node>, distances: seq<nat>): seq<Enr>
  {
    (if AsksForUs(distances) then [local] else [])
    + FilterMap(Connected, Record, Limited(Candidates(local.id, table, distances)))
  }

  lemma {:induction false} InBucketsMember(local: Word, table: seq<Node>, ds: seq<nat>, n: Node)
    ensures n in InBuckets(local, table, ds) <==>
            n in table && exists d :: d in ds && Log2(DistanceBetween(local, n.enr.id)) == Some(d)
  {
    hide DistanceBetween, Log2;
    if ds != [] {
      InBucketsMember(local, table, ds[1..], n);
      FilterByMember(AtLog(local, ds[0]), table, n);
      assert ds == [ds[0]] + ds[1..];
    }
  }

  lemma ZeroIsNoLog(local: Word, n: Node)
    ensures Log2(DistanceBetween(local, n.enr.id)) != Some(0)
  {
    DistanceIsXor(local, n.enr.id);
    hide DistanceBetween;
    Log2Correct(DistanceBetween(local, n.enr.id), 0);
  }

  /** An entry of the table at a distance asked for. */
  ghost predicate InTable(local: Word, table: seq<Node>, distances: seq<nat>, n: Node)
  {
    n in table && exists d :: d in distances && Log2(DistanceBetween(local, n.enr.id)) == Some(d)
  }

  ghost predicate IsMatch(local: Word, table: seq<Node>, distances: seq<nat>, e: Enr)
  {
    exists n :: InTable(local, table, distances, n) && n.connected && n.enr == e
  }

  lemma AsksForUsExactly(distances: seq<nat>)
    ensures AsksForUs(distances) <==> 0 in distances
  {
    hide Normalized;
    NormalizedCorrect(distances);
    if 0 in distances {
      var ds := Normalized(distances);
      var i :| 0 <= i < |ds| && ds[i] == 0;
    }
  }

  /** The candidates are the entries at the distances asked for. */
  lemma CandidatesMember(local: Word, table: seq<Node>, distances: seq<nat>, n: Node)
    ensures n in Candidates(local, table, distances) <==> InTable(local, table, distances, n)
  {
    hide DistanceBetween, Log2, InBuckets, Normalized;
    NormalizedCorrect(distances);
    var ds := Normalized(distances);
    InBucketsMember(local, table, if AsksForUs(distances) then ds[1..] else ds, n);
    ZeroIsNoLog(local, n);
    if ds != [] {
      assert ds == [ds[0]] + ds[1..];
    }
  }

  /** What is found: our own record exactly if distance zero is asked for, and otherwise connected
      entries at the distances asked for; all of them, if no more than the limit are at those
      distances, disconnected ones counted. */
  lemma NodesFound(local: Enr, table: seq<Node>, distances: seq<nat>, e: Enr)
    ensures e in NodesByDistance(local, table, distances) ==>
              (0 in distances && e == local) || IsMatch(local.id, table, distances, e)
    ensures 0 in distances ==> local in NodesByDistance(local, table, distances)
    ensures |Candidates(local.id, table, distances)| <= 32 ==>
              IsMatch(local.id, table, distances, e) ==> e in NodesByDistance(local, table, distances)
  {
    hide Candidates, AsksForUs, FilterMap, InTable;
    var all := Candidates(local.id, table, distances);
    forall n ensures n in all <==> InTable(local.id, table, distances, n) {
      CandidatesMember(local.id, table, distances, n);
    }
    AsksForUsExactly(distances);
    FilterMapMember(Connected, Record, Limited(all), e);
    assert forall n :: n in Limited(all) ==> n in all;
  }

  /** As many connected candidates are found as there are, up to the limit, exactly if those within
      the limit are all connected or those beyond it are all disconnected. */
  lemma LimitCountsDisconnected(local: Enr, table: seq<Node>, distances: seq<nat>)
    ensures var all := Candidates(local.id, table, distances);
            |FilterMap(Connected, Record, Limited(all))| == Min(32, |FilterBy(Connected, all)|) <==>
            || (forall i :: 0 <= i < |all| && i < 32 ==> all[i].connected)
            || (forall i :: 32 <= i < |all| ==> !all[i].connected)
  {
    hide Candidates, FilterBy;
    var all := Candidates(local.id, table, distances);
    LimitedCount(all, Limited(all));
  }

  lemma LimitedCount(all: seq<Node>, near: seq<Node>)
    requires near == if |all| <= 32 then all else all[..32]
    ensures |FilterBy(Connected, near)| == Min(32, |FilterBy(Connected, all)|) <==>
            || (forall i :: 0 <= i < |all| && i < 32 ==> all[i].connected)
            || (forall i :: 32 <= i < |all| ==> !all[i].connected)
  {
    hide FilterBy;
    var far := all[|near|..];
    assert all == near + far;
    FilterByConcat(Connected, near, far);
    FilterByCount(Connected, near);
    FilterByCount(Connected, far);
    if |all| > 32 {
      assert (forall i :: 32 <= i < |all| ==> !all[i].connected) <==>
             (forall i :: 0 <= i < |far| ==> !far[i].connected) by {
        assert forall i :: 32 <= i < |all| ==> all[i] == far[i - 32];
        assert forall i :: 0 <= i < |far| ==> far[i] == all[i + 32];
      }
    }
  }

  ghost predicate AllAt(local: Word, nodes: seq<Node>, d: nat, connected: bool)
  {
    forall i :: 0 <= i < |nodes| ==> AtLog(local, d)(nodes[i]) && nodes[i].connected == connected
  }

  /** Two full buckets of disconnected entries hide a connected one at the third distance asked for. */
  lemma CrowdedOutExample(local: Enr, a: seq<Node>, b: seq<Node>, n: Node, d: nat, e: nat, f: nat)
    requires 0 < d < e < f && |a| == |b| == 16
    requires AllAt(local.id, a, d, false) && AllAt(local.id, b, e, false) && AllAt(local.id, [n], f, true)
    ensures IsMatch(local.id, a + b + [n], [d, e, f], n.enr)
    ensures NodesByDistance(local, a + b + [n], [d, e, f]) == []
  {
    hide DistanceBetween, Log2, FilterBy, FilterMap, InBuckets;
    var table, ds := a + b + [n], [d, e, f];
    InOrderAlready(ds);
    BucketOf(local.id, a, b, [n], d, e, f, d);
    BucketOf(local.id, a, b, [n], d, e, f, e);
    BucketOf(local.id, a, b, [n], d, e, f, f);
    ThreeBuckets(local.id, table, d, e, f);
    var all := Candidates(local.id, table, ds);
    assert all == a + (b + [n]);
    assert Limited(all) == a + b;
    FilterByCount(Connected, a + b);
    NoneKept(a + b);
    assert n.connected && InTable(local.id, table, ds, n) by {
      assert AtLog(local.id, f)([n][0]) && [n][0].connected && f in ds;
    }
  }

  lemma NoneKept(nodes: seq<Node>)
    requires FilterBy(Connected, nodes) == []
    ensures FilterMap(Connected, Record, nodes) == []
  {
  }

  lemma {:induction false} DedupAscending(s: seq<nat>)
    requires Ascending(s)
    ensures Dedup(s) == s
  {
    if |s| >= 2 {
      DedupAscending(s[1..]);
      assert s == [s[0]] + s[1..];
    }
  }

  lemma InOrderAlready(ds: seq<nat>)
    requires Ascending(ds)
    ensures Normalized(ds) == ds
  {
    SortBySorted(Same, ds);
    DedupAscending(ds);
  }

  lemma ThreeBuckets(local: Word, table: seq<Node>, d: nat, e: nat, f: nat)
    ensures InBuckets(local, table, [d, e, f]) ==
            FilterBy(AtLog(local, d), table) + (FilterBy(AtLog(local, e), table) + FilterBy(AtLog(local, f), table))
  {
    hide FilterBy;
    assert [d, e, f][1..] == [e, f] && [e, f][1..] == [f] && [f][1..] == [];
    assert InBuckets(local, table, [f]) == FilterBy(AtLog(local, f), table) + [];
  }

  /** Filtering a table of three buckets by one of their distances. */
  lemma BucketOf(local: Word, a: seq<Node>, b: seq<Node>, c: seq<Node>, d: nat, e: nat, f: nat, x: nat)
    requires d < e < f && (x == d || x == e || x == f)
    requires AllAt(local, a, d, false) && AllAt(local, b, e, false) && AllAt(local, c, f, true)
    ensures FilterBy(AtLog(local, x), a + b + c) == if x == d then a else if x == e then b else c
  {
    hide DistanceBetween, Log2, FilterBy;
    var p := AtLog(local, x);
    FilterByConcat(p, a + b, c);
    FilterByConcat(p, a, b);
    OneBucket(local, a, d, false, x);
    OneBucket(local, b, e, false, x);
    OneBucket(local, c, f, true, x);
  }

  lemma OneBucket(local: Word, nodes: seq<Node>, d: nat, connected: bool, x: nat)
    requires AllAt(local, nodes, d, connected)
    ensures FilterBy(AtLog(local, x), nodes) == if x == d then nodes else []
  {
    hide DistanceBetween, Log2, FilterBy;
    forall i | 0 <= i < |nodes| ensures AtLog(local, x)(nodes[i]) <==> x == d {
      assert AtLog(local, d)(nodes[i]);
    }
    FilterByCount(AtLog(local, x), nodes);
  }

  function LogDistance(local: Word): Enr -> nat
  {
    (e: Enr) => var log := Log2(DistanceBetween(local, e.id)); if log.Some? then log.value else 0
  }

  function LogOf(local: Word): Node -> nat
  {
    (n: Node) => LogDistance(local)(n.enr)
  }

  lemma {:induction false} BucketsInOrder(local: Word, table: seq<Node>, ds: seq<nat>)
    requires Ascending(ds)
    ensures SortedBy(LogOf(local), InBuckets(local, table, ds))
    ensures forall n :: n in InBuckets(local, table, ds) ==> ds != [] && ds[0] <= LogOf(local)(n)
  {
    hide DistanceBetween, Log2;
    if ds != [] {
      BucketsInOrder(local, table, ds[1..]);
      var first, rest := FilterBy(AtLog(local, ds[0]), table), InBuckets(local, table, ds[1..]);
      forall n | n in first ensures LogOf(local)(n) == ds[0] {
        FilterByMember(AtLog(local, ds[0]), table, n);
        AtItsLog(local, ds[0], n);
      }
    }
  }

  lemma AtItsLog(local: Word, d: nat, n: Node)
    requires AtLog(local, d)(n)
    ensures LogOf(local)(n) == d
  {
    hide DistanceBetween;
    var log := Log2(DistanceBetween(local, n.enr.id));
    assert LogDistance(local)(n.enr) == log.value;
  }

  /** The records found are in order of their log distance. */
  lemma NodesInOrder(local: Enr, table: seq<Node>, distances: seq<nat>)
    ensures SortedBy(LogDistance(local.id), NodesByDistance(local, table, distances))
  {
    hide DistanceBetween, Log2, Normalized, InBuckets, FilterBy;
    NormalizedCorrect(distances);
    var ds := Normalized(distances);
    var all := Candidates(local.id, table, distances);
    BucketsInOrder(local.id, table, if AsksForUs(distances) then ds[1..] else ds);
    var some := Limited(all);
    assert SortedBy(LogOf(local.id), some);
    FilterBySorted(LogOf(local.id), Connected, some);
    OwnLogIsZero(local);
  }

  lemma OwnLogIsZero(local: Enr)
    ensures LogDistance(local.id)(local) == 0
  {
    DistanceIsXor(local.id, local.id);
    MetricIdentity(local.id, local.id);
    hide DistanceBetween;
    Log2Correct(0, 0);
  }

  /** `handle_find_nodes`. */
  method HandleFindNodes(local: Enr, table: seq<Node>, distances: seq<nat>, source: Word)
    returns (reply: Message<Enr>)
    ensures reply.Nodes? && reply.total == 1
    ensures LongestFit(reply.nodes, FilterBy(NotFrom(source), NodesByDistance(local, table, distances)),
                       1165)
  {
    var others := FilterBy(NotFrom(source), NodesByDistance(local, table, distances));
    var kept := PopWhileSszBytesLenGt(others, MAX_PORTAL_NODES_ENRS_SIZE);
    reply := Nodes(1, kept);
  }

  function NotFrom(source: Word): Enr -> bool
  {
    (e: Enr) => e.id != source
  }

  // --- FINDCONTENT ---

  /** `find_nodes_close_to_content`. */
  function ClosestNodes(table: seq<Node>, target: Word): seq<Enr>
  {
    var near := SortBy(ByDistance(target), ConnectedEnrs(table));
    if |near| <= FIND_CONTENT_MAX_NODES then near else near[..FIND_CONTENT_MAX_NODES]
  }

  /** `table_entries_enr`. */
  function ConnectedEnrs(table: seq<Node>): seq<Enr>
  {
    FilterMap(Connected, Record, table)
  }

  predicate Connected(n: Node)
  {
    n.connected
  }

  lemma ConnectedMember(table: seq<Node>, e: Enr)
    ensures e in ConnectedEnrs(table) <==> exists n :: n in table && n.connected && n.enr == e
  {
    FilterMapMember(Connected, Record, table, e);
  }

  lemma ClosestNodesCount(table: seq<Node>, target: Word)
    ensures |ClosestNodes(table, target)| == Min(32, |ConnectedEnrs(table)|)
  {
    SortByCorrect(ByDistance(target), ConnectedEnrs(table));
  }

  datatype FindContentResult = Reply(content: Content<Enr>) | UnknownSource | InvalidContentKey

  /** `handle_find_content`: `target` is the content id of the key asked for, none if it is no key;
      `stored` is the local lookup, `cid` the connection id reserved when the content is too large
      for one packet, `sourceKnown` whether the asker's address is cached. */
  method HandleFindContent(target: Option<Word>, stored: Option<seq<u8>>, cid: u16, sourceKnown: bool,
                           table: seq<Node>, source: Word)
    returns (r: FindContentResult)
    ensures target.None? ==> r == InvalidContentKey
    ensures target.Some? && stored.Some? && |stored.value| <= 1165 ==>
              r == Reply(RawContent(stored.value))
    ensures target.Some? && stored.Some? && |stored.value| > 1165 ==>
              r == if sourceKnown then Reply(ConnectionId(cid)) else UnknownSource
    ensures target.Some? && stored.None? ==>
              && r.Reply? && r.content.Enrs?
              && LongestFit(r.content.enrs, FilterBy(NotFrom(source), ClosestNodes(table, target.value)),
                            1165)
  {
    if target.None? {
      return InvalidContentKey;
    }
    match stored
    case Some(content) =>
      if |content| <= MAX_PORTAL_CONTENT_PAYLOAD_SIZE {
        r := Reply(RawContent(content));
      } else if sourceKnown {
        r := Reply(ConnectionId(cid));
      } else {
        r := UnknownSource;
      }
    case None =>
      var near := FilterBy(NotFrom(source), ClosestNodes(table, target.value));
      var kept := PopWhileSszBytesLenGt(near, MAX_PORTAL_CONTENT_PAYLOAD_SIZE);
      r := Reply(Enrs(kept));
  }

  /** No reply of either handler exceeds a talk response. */
  lemma RepliesFit(c: EnrCodec<Enr>, content: Content<Enr>, found: seq<Enr>, near: seq<Enr>)
    requires forall e: Enr :: c.encode(e) == e.rlp
    requires match content
             case RawContent(bytes) => |bytes| <= 1165
             case ConnectionId(_) => true
             case Enrs(enrs) => LongestFit(enrs, near, 1165)
    ensures |Encode(c, ContentMessage(content))| <= 1171
    ensures forall kept :: LongestFit(kept, found, 1165) ==>
              |Encode(c, Nodes(1, kept))| <= 1171
  {
    hide EncodeList, EnrsSize, ToLittleEndian;
    if content.Enrs? {
      TrimmedRepliesFit(c, content.enrs);
    }
    forall kept | LongestFit(kept, found, MAX_PORTAL_NODES_ENRS_SIZE)
      ensures |Encode(c, Nodes(1, kept))| <= MAX_DISCV5_TALK_REQ_PAYLOAD_SIZE
    {
      TrimmedRepliesFit(c, kept);
    }
  }

  /** The records in a CONTENT reply are those of connected entries other than the asker's, in order
      of distance, and no such entry left out is closer than one that is sent. */
  lemma ContentReplyIsClosest(table: seq<Node>, target: Word, source: Word, kept: seq<Enr>, max: nat)
    requires LongestFit(kept, FilterBy(NotFrom(source), ClosestNodes(table, target)), max)
    ensures SortedBy(ByDistance(target), kept)
    ensures forall e :: e in kept ==> e.id != source && exists n :: n in table && n.connected && n.enr == e
    ensures forall n, e :: n in table && n.connected && n.enr.id != source && n.enr !in kept && e in kept ==>
              DistanceBetween(target, e.id) <= DistanceBetween(target, n.enr.id)
  {
    hide DistanceBetween, EnrsSize, FilterMap;
    var key, p := ByDistance(target), NotFrom(source);
    var all := ConnectedEnrs(table);
    var sorted, near := SortBy(key, all), ClosestNodes(table, target);
    var others := FilterBy(p, near);
    SortByCorrect(key, all);
    assert near <= sorted;
    FilterBySorted(key, p, near);
    forall e | e in kept ensures e in near && e.id != source && exists n :: n in table && n.connected && n.enr == e {
      assert e in others;
      FilterByMember(p, near, e);
      SortByMember(key, all, e);
      ConnectedMember(table, e);
    }
    forall n, e | n in table && n.connected && n.enr.id != source && n.enr !in kept && e in kept
      ensures key(e) <= key(n.enr)
    {
      ConnectedMember(table, n.enr);
      LeftOutIsFarther(key, p, all, near, kept, n.enr, e);
    }
  }

  lemma LeftOutIsFarther(key: Enr -> nat, p: Enr -> bool, all: seq<Enr>, near: seq<Enr>, kept: seq<Enr>,
                         out: Enr, e: Enr)
    requires near <= SortBy(key, all) && SortedBy(key, SortBy(key, all))
    requires SortedBy(key, FilterBy(p, near)) && kept <= FilterBy(p, near)
    requires out in all && p(out) && out !in kept && e in kept
    ensures key(e) <= key(out)
  {
    hide SortBy, FilterBy;
    var sorted := SortBy(key, all);
    SortByMember(key, all, out);
    var j :| 0 <= j < |sorted| && sorted[j] == out;
    if j < |near| {
      assert near[j] == out;
      FilterByMember(p, near, out);
      OutsidePrefix(key, FilterBy(p, near), kept, out, e);
    } else {
      assert e in FilterBy(p, near);
      FilterByMember(p, near, e);
      var i :| 0 <= i < |near| && near[i] == e;
      assert sorted[i] == e;
    }
  }

  lemma OutsidePrefix(key: Enr -> nat, s: seq<Enr>, prefix: seq<Enr>, out: Enr, e: Enr)
    requires SortedBy(key, s) && prefix <= s && out in s && out !in prefix && e in prefix
    ensures key(e) <= key(out)
  {
    var i :| 0 <= i < |prefix| && prefix[i] == e;
    var j :| 0 <= j < |s| && s[j] == out;
    assert s[i] == e && prefix == s[..|prefix|];
  }
}
