/** Neighbourhood gossip: choosing recipients for each item and grouping the offers by peer. */
module Gossip {
  import opened Bytes
  import opened Distance
  import opened NodeRecords
  import opened Sorting
  import opened Wrappers

  const NUM_CLOSEST_NODES: nat := 4
  const NUM_FARTHER_NODES: nat := 4

  /** A content item; `id` is the content id of `key`. */
  datatype Item = Item(key: seq<u8>, id: Word, value: seq<u8>)

  // --- Recipients of one item ---

  /** Connected peers whose announced radius strictly covers the content. */
  function Interested(target: Word, table: seq<Node>): seq<Enr>
  {
    FilterMap(Covers(target), Record, table)
  }

  function Covers(target: Word): Node -> bool
  {
    (n: Node) => n.connected && DistanceBetween(target, n.enr.id) < n.radius
  }

  /** `rs` may be the recipients chosen among `all`: as many as possible up to eight, none twice
      unless listed twice, and none of the rest closer than one of the first four. */
  ghost predicate Recipients(target: Word, all: seq<Enr>, rs: seq<Enr>)
  {
    && |rs| == Min(8, |all|)
    && multiset(rs) <= multiset(all)
    && var close := rs[..Min(4, |rs|)];
       forall r, e :: r in close && e in multiset(all) - multiset(close) ==>
         ByDistance(target)(r) <= ByDistance(target)(e)
  }

  /** `choose_multiple`: any choice without replacement. */
  method SelectRandomEnrs(num: nat, enrs: seq<Enr>) returns (chosen: seq<Enr>)
    ensures |chosen| == Min(num, |enrs|)
    ensures multiset(chosen) <= multiset(enrs)
  {
    chosen := [];
    var left := enrs;
    while |chosen| < num && left != []
      invariant |chosen| + |left| == |enrs| && |chosen| <= num
      invariant multiset(chosen) + multiset(left) == multiset(enrs)
      decreases |left|
    {
      var i :| 0 <= i < |left|;
      assert left == left[..i] + [left[i]] + left[i + 1..];
      chosen := chosen + [left[i]];
      left := left[..i] + left[i + 1..];
    }
  }

  /** `select_gossip_recipients`, on records sorted by distance. */
  method SelectGossipRecipients(target: Word, sorted: seq<Enr>) returns (rs: seq<Enr>)
    requires SortedBy(ByDistance(target), sorted)
    ensures Recipients(target, sorted, rs)
  {
    hide ByDistance;
    if |sorted| <= NUM_CLOSEST_NODES {
      rs := sorted;
      assert rs[..|rs|] == rs;
    } else {
      var close, far := sorted[..NUM_CLOSEST_NODES], sorted[NUM_CLOSEST_NODES..];
      var random := SelectRandomEnrs(NUM_FARTHER_NODES, far);
      rs := close + random;
      assert sorted == close + far;
      assert rs[..NUM_CLOSEST_NODES] == close;
      CloserThanTheRest(target, close, far);
    }
  }

  lemma CloserThanTheRest(target: Word, close: seq<Enr>, far: seq<Enr>)
    requires SortedBy(ByDistance(target), close + far)
    ensures forall r, e :: r in close && e in multiset(close + far) - multiset(close) ==>
              ByDistance(target)(r) <= ByDistance(target)(e)
  {
    hide ByDistance;
    var sorted := close + far;
    assert multiset(sorted) - multiset(close) == multiset(far);
    forall r, e | r in close && e in far ensures ByDistance(target)(r) <= ByDistance(target)(e) {
      var i :| 0 <= i < |close| && close[i] == r;
      var j :| 0 <= j < |far| && far[j] == e;
      assert sorted[i] == r && sorted[|close| + j] == e;
    }
  }

  /** `calculate_interested_enrs`. */
  method CalculateInterestedEnrs(target: Word, table: seq<Node>) returns (rs: seq<Enr>)
    ensures Recipients(target, Interested(target, table), rs)
  {
    hide ByDistance;
    var enrs := Interested(target, table);
    SortByCorrect(ByDistance(target), enrs);
    rs := SelectGossipRecipients(target, SortBy(ByDistance(target), enrs));
  }

  lemma InterestedMember(target: Word, table: seq<Node>, e: Enr)
    ensures e in Interested(target, table) <==>
            exists n :: n in table && n.enr == e && n.connected && DistanceBetween(target, e.id) < n.radius
  {
    hide DistanceBetween;
    FilterMapMember(Covers(target), Record, table, e);
  }

  ghost predicate UniqueIds(table: seq<Node>)
  {
    forall i, j :: 0 <= i < j < |table| ==> table[i].enr.id != table[j].enr.id
  }

  lemma {:induction false} InterestedDistinct(target: Word, table: seq<Node>)
    requires UniqueIds(table)
    ensures Distinct(Interested(target, table))
  {
    if table != [] {
      InterestedDistinct(target, table[1..]);
      hide DistanceBetween;
      FilterMapFirst(Covers(target), Record, table);
      InterestedMember(target, table[1..], table[0].enr);
      var rest := Interested(target, table[1..]);
      assert table[0].enr !in multiset(rest);
    }
  }

  /** In a routing table with one entry per node an item goes to distinct peers, each connected and
      with the content strictly inside its radius. */
  lemma RecipientsAreEligible(target: Word, table: seq<Node>, rs: seq<Enr>)
    requires Recipients(target, Interested(target, table), rs)
    requires UniqueIds(table)
    ensures Distinct(rs) && |rs| == Min(8, |Interested(target, table)|)
    ensures forall i, e :: 0 <= i < 4 && i < |rs| && e in Interested(target, table) && e !in rs[..Min(4, |rs|)] ==>
              DistanceBetween(target, rs[i].id) <= DistanceBetween(target, e.id)
    ensures forall e :: e in rs ==>
              exists n :: n in table && n.enr == e && n.connected && DistanceBetween(target, e.id) < n.radius
  {
    hide Interested, DistanceBetween;
    InterestedDistinct(target, table);
    var close, all := rs[..Min(4, |rs|)], Interested(target, table);
    forall i, e | 0 <= i < 4 && i < |rs| && e in all && e !in close
      ensures DistanceBetween(target, rs[i].id) <= DistanceBetween(target, e.id)
    {
      assert rs[i] == close[i] && e in multiset(all) && e in multiset(all) - multiset(close);
      assert ByDistance(target)(rs[i]) <= ByDistance(target)(e);
    }
    forall e | e in rs
      ensures exists n :: n in table && n.enr == e && n.connected && DistanceBetween(target, e.id) < n.radius
    {
      assert e in multiset(rs);
      InterestedMember(target, table, e);
    }
  }

  // --- Grouping by peer ---

  function Repeat<T>(x: T, n: nat): seq<T>
  {
    if n == 0 then [] else Repeat(x, n - 1) + [x]
  }

  /** What peer `p` must be offered: each item as often as `p` was chosen for it, in input order. */
  ghost function ItemsFor(p: Enr, content: seq<Item>, chosen: seq<seq<Enr>>): seq<Item>
    requires |chosen| == |content|
  {
    if content == [] then []
    else
      var n := |content| - 1;
      ItemsFor(p, content[..n], chosen[..n]) + Repeat(content[n], multiset(chosen[n])[p])
  }

  /** For a peer chosen at most once per item: its items are those it was chosen for, in input order. */
  lemma {:induction false} ItemsInOrder(p: Enr, content: seq<Item>, chosen: seq<seq<Enr>>, bits: seq<bool>)
    requires |chosen| == |content| == |bits|
    requires forall i :: 0 <= i < |bits| ==> bits[i] == (p in chosen[i]) && multiset(chosen[i])[p] <= 1
    ensures ItemsFor(p, content, chosen) == Selected(bits, content)
  {
    if content != [] {
      var n := |content| - 1;
      ItemsInOrder(p, content[..n], chosen[..n], bits[..n]);
      SelectedNext(bits, content, n);
      assert bits[..n + 1] == bits && content[..n + 1] == content;
      hide Selected;
      assert p in chosen[n] <==> multiset(chosen[n])[p] == 1;
      assert Repeat(content[n], 1) == Repeat(content[n], 0) + [content[n]];
    }
  }

  type Groups = map<Enr, seq<Item>>

  ghost predicate Grouped(groups: Groups, content: seq<Item>, chosen: seq<seq<Enr>>)
    requires |chosen| == |content|
  {
    && (forall p :: p in groups ==> groups[p] == ItemsFor(p, content, chosen) && groups[p] != [])
    && forall p :: p !in groups ==> ItemsFor(p, content, chosen) == []
  }

  function Push(groups: Groups, p: Enr, item: Item): Groups
  {
    groups[p := (if p in groups then groups[p] else []) + [item]]
  }

  function Offered(groups: Groups, p: Enr): seq<Item>
  {
    if p in groups then groups[p] else []
  }

  /** The inner loop: one item is pushed to the list of each of its recipients. */
  method PushToAll(groups: Groups, item: Item, rs: seq<Enr>) returns (out: Groups)
    ensures forall p :: Offered(out, p) == Offered(groups, p) + Repeat(item, multiset(rs)[p])
    ensures (forall p :: p in groups ==> groups[p] != []) ==> forall p :: p in out ==> out[p] != []
  {
    hide Offered, Repeat;
    out := groups;
    assert rs[..0] == [];
    NothingPushed(groups, item);
    for i := 0 to |rs|
      invariant forall p :: Offered(out, p) == Offered(groups, p) + Repeat(item, multiset(rs[..i])[p])
      invariant (forall p :: p in groups ==> groups[p] != []) ==> forall p :: p in out ==> out[p] != []
    {
      PushOne(groups, out, item, rs[..i], rs[i]);
      assert rs[..i + 1] == rs[..i] + [rs[i]];
      out := Push(out, rs[i], item);
    }
    assert rs[..|rs|] == rs;
  }

  lemma NothingPushed(groups: Groups, item: Item)
    ensures forall p :: Offered(groups, p) == Offered(groups, p) + Repeat(item, multiset{}[p])
  {
  }

  lemma PushOne(groups: Groups, out: Groups, item: Item, rs: seq<Enr>, q: Enr)
    requires forall p :: Offered(out, p) == Offered(groups, p) + Repeat(item, multiset(rs)[p])
    ensures forall p :: Offered(Push(out, q, item), p) == Offered(groups, p) + Repeat(item, multiset(rs + [q])[p])
  {
    hide Offered, Repeat, Push;
    forall p ensures Offered(Push(out, q, item), p) == Offered(groups, p) + Repeat(item, multiset(rs + [q])[p]) {
      PushAt(out, q, item, p);
      if p == q {
        var before, n := Offered(groups, p), multiset(rs)[p];
        assert multiset(rs + [q])[p] == n + 1;
        RepeatStep(item, n);
        assert before + (Repeat(item, n) + [item]) == before + Repeat(item, n) + [item];
      } else {
        assert multiset(rs + [q])[p] == multiset(rs)[p];
      }
    }
  }

  lemma PushAt(groups: Groups, q: Enr, item: Item, p: Enr)
    ensures Offered(Push(groups, q, item), p) == if p == q then Offered(groups, p) + [item] else Offered(groups, p)
  {
  }

  lemma RepeatStep<T>(x: T, n: nat)
    ensures Repeat(x, n + 1) == Repeat(x, n) + [x]
  {
  }

  /** One OFFER command per peer. */
  datatype Command = OfferCommand(peer: Enr, items: seq<Item>)

  method SendOffers(groups: Groups) returns (sent: seq<Command>)
    ensures |sent| == |groups|
    ensures forall i, j :: 0 <= i < j < |sent| ==> sent[i].peer != sent[j].peer
    ensures forall i :: 0 <= i < |sent| ==> sent[i].peer in groups && sent[i].items == groups[sent[i].peer]
    ensures forall p :: p in groups ==> OfferCommand(p, groups[p]) in sent
  {
    sent := [];
    var left := groups.Keys;
    while left != {}
      invariant left <= groups.Keys && |sent| + |left| == |groups|
      invariant forall i, j :: 0 <= i < j < |sent| ==> sent[i].peer != sent[j].peer
      invariant forall i :: 0 <= i < |sent| ==>
                  sent[i].peer in groups && sent[i].peer !in left && sent[i].items == groups[sent[i].peer]
      invariant forall p :: p in groups && p !in left ==> OfferCommand(p, groups[p]) in sent
      decreases |left|
    {
      var p :| p in left;
      sent := sent + [OfferCommand(p, groups[p])];
      left := left - {p};
    }
  }

  /** `propagate_gossip_cross_thread`; `chosen[i]` are the recipients drawn for item `i`. */
  method PropagateGossip(content: seq<Item>, table: seq<Node>)
    returns (count: nat, sent: seq<Command>, ghost chosen: seq<seq<Enr>>)
    ensures |chosen| == |content|
    ensures forall i :: 0 <= i < |content| ==>
              Recipients(content[i].id, Interested(content[i].id, table), chosen[i])
    ensures count == |sent|
    ensures forall i, j :: 0 <= i < j < |sent| ==> sent[i].peer != sent[j].peer
    ensures forall i :: 0 <= i < |sent| ==>
              sent[i].items == ItemsFor(sent[i].peer, content, chosen) && sent[i].items != []
    ensures forall p :: ItemsFor(p, content, chosen) != [] ==>
              OfferCommand(p, ItemsFor(p, content, chosen)) in sent
  {
    hide Recipients, Interested, ByDistance;
    chosen := [];
    if forall n :: n in table ==> !n.connected {
      chosen := NobodyInterested(content, table);
      return 0, [], chosen;
    }
    var groups: Groups := map[];
    for i := 0 to |content|
      invariant |chosen| == i
      invariant forall k :: 0 <= k < i ==>
                  Recipients(content[k].id, Interested(content[k].id, table), chosen[k])
      invariant Grouped(groups, content[..i], chosen)
    {
      var rs := CalculateInterestedEnrs(content[i].id, table);
      ghost var before := groups;
      groups := PushToAll(groups, content[i], rs);
      GroupOneMore(before, groups, content[..i], content[i], chosen, rs);
      assert content[..i + 1] == content[..i] + [content[i]];
      chosen := chosen + [rs];
    }
    assert content[..|content|] == content;
    count := |groups|;
    sent := SendOffers(groups);
  }

  lemma GroupOneMore(before: Groups, after: Groups, content: seq<Item>, item: Item, chosen: seq<seq<Enr>>, rs: seq<Enr>)
    requires |content| == |chosen| && Grouped(before, content, chosen)
    requires forall p :: Offered(after, p) == Offered(before, p) + Repeat(item, multiset(rs)[p])
    requires forall p :: p in after ==> after[p] != []
    ensures Grouped(after, content + [item], chosen + [rs])
  {
    forall p ensures ItemsFor(p, content + [item], chosen + [rs]) == Offered(after, p) {
      assert (content + [item])[..|content|] == content && (chosen + [rs])[..|content|] == chosen;
      assert ItemsFor(p, content, chosen) == Offered(before, p);
    }
  }

  /** With no connected peer nobody is interested in anything. */
  lemma NobodyInterested(content: seq<Item>, table: seq<Node>) returns (chosen: seq<seq<Enr>>)
    requires forall n :: n in table ==> !n.connected
    ensures |chosen| == |content|
    ensures forall i :: 0 <= i < |content| ==>
              Recipients(content[i].id, Interested(content[i].id, table), chosen[i])
    ensures forall p :: ItemsFor(p, content, chosen) == []
  {
    chosen := seq(|content|, _ => []);
    forall i | 0 <= i < |content| ensures Interested(content[i].id, table) == [] {
      NoneConnected(content[i].id, table);
    }
    forall p ensures ItemsFor(p, content, chosen) == [] {
      NoItems(p, content, chosen);
    }
  }

  lemma NoneConnected(target: Word, table: seq<Node>)
    requires forall n :: n in table ==> !n.connected
    ensures Interested(target, table) == []
  {
    hide DistanceBetween;
    var all := Interested(target, table);
    if all != [] {
      InterestedMember(target, table, all[0]);
    }
  }

  lemma {:induction false} NoItems(p: Enr, content: seq<Item>, chosen: seq<seq<Enr>>)
    requires |chosen| == |content| && forall k :: 0 <= k < |chosen| ==> chosen[k] == []
    ensures ItemsFor(p, content, chosen) == []
  {
    if content != [] {
      var n := |content| - 1;
      NoItems(p, content[..n], chosen[..n]);
    }
  }

  /** Conservation: a peer's offer contains an item exactly as many times as the peer was chosen
      for an occurrence of that item. */
  lemma {:induction false} OfferCounts(p: Enr, item: Item, content: seq<Item>, chosen: seq<seq<Enr>>)
    requires |chosen| == |content|
    ensures multiset(ItemsFor(p, content, chosen))[item] == TimesChosen(p, item, content, chosen)
  {
    if content != [] {
      var n := |content| - 1;
      OfferCounts(p, item, content[..n], chosen[..n]);
      RepeatCount(content[n], multiset(chosen[n])[p], item);
    }
  }

  ghost function TimesChosen(p: Enr, item: Item, content: seq<Item>, chosen: seq<seq<Enr>>): nat
    requires |chosen| == |content|
  {
    if content == [] then 0
    else
      var n := |content| - 1;
      TimesChosen(p, item, content[..n], chosen[..n]) + (if content[n] == item then multiset(chosen[n])[p] else 0)
  }

  lemma {:induction false} RepeatCount<T>(x: T, n: nat, y: T)
    ensures multiset(Repeat(x, n))[y] == if x == y then n else 0
  {
    if n > 0 {
      RepeatCount(x, n - 1, y);
    }
  }
}
