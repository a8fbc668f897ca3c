/** Traced gossip: what the sender reports on the result channel of an offer, and the lists of
    peers offered, accepting and reached that are built from it. */
module GossipTrace {
  import opened Bytes
  import opened NodeRecords
  import opened Sorting
  import opened Wrappers
  import OfferAccept
  import Payload

  // --- `process_accept` for an offer with a result channel ---

  datatype Utp = ConnectFailed | WriteFailed | Written

  /** The values sent on the result channel, in order: `value` is the one offered item. */
  method ProcessAccept(bits: seq<bool>, value: seq<u8>, utp: Utp) returns (results: seq<bool>)
    ensures results == [Transferred(bits, value, utp)]
    ensures results == [true] <==>
            && (exists i :: 0 <= i < |bits| && bits[i])
            && utp == Written
            && forall v :: v in Selected(bits, [value]) ==> |v| < 0x1_0000_0000
    ensures results == [true] || results == [false]
  {
    TransferredExactly(bits, value, utp);
    results := [];
    if true !in bits {
      results := results + [false];
      return;
    }
    if utp.ConnectFailed? {
      results := results + [false];
      return;
    }
    var items := Selected(bits, [value]);
    assert items == (if bits[0] then [value] else []) + Selected(bits[1..], [value][1..]);
    assert items == if bits[0] then [value] else [];
    var payload := Payload.EncodeContentPayload(items);
    if payload.Err? {
      results := results + [false];
      return;
    }
    results := results + [utp.Written?];
  }

  /** The one boolean that is sent. Only the first bit concerns the single offered item. */
  predicate Transferred(bits: seq<bool>, value: seq<u8>, utp: Utp)
  {
    true in bits && utp.Written? && (bits[0] ==> |value| < Payload.U32_LIMIT)
  }

  /** A transfer is reported exactly if some bit was set, the payload written, and nothing selected
      was too large for it. */
  lemma TransferredExactly(bits: seq<bool>, value: seq<u8>, utp: Utp)
    ensures Transferred(bits, value, utp) <==>
            && (exists i :: 0 <= i < |bits| && bits[i])
            && utp == Written
            && forall v :: v in Selected(bits, [value]) ==> |v| < 0x1_0000_0000
  {
    if bits != [] {
      assert Selected(bits, [value]) == (if bits[0] then [value] else []) + Selected(bits[1..], [value][1..]);
      assert bits[0] ==> value in Selected(bits, [value]);
    }
  }

  /** What a reported transfer carried: the item, exactly when the first bit was set, and otherwise
      an empty payload. */
  lemma TransferCarriesItem(bits: seq<bool>, value: seq<u8>, utp: Utp)
    requires Transferred(bits, value, utp)
    ensures Payload.Decoded(OfferAccept.SentPayload(bits, [value])) == Ok(if bits[0] then [value] else [])
    ensures OfferAccept.SentPayload(bits, [value]) == [] <==> !bits[0]
  {
    hide Payload.Decoded;
    var items := Selected(bits, [value]);
    assert items == (if bits[0] then [value] else []) + Selected(bits[1..], [value][1..]);
    assert items == if bits[0] then [value] else [];
    Payload.PayloadRoundTrip(items);
  }

  /** A peer that sets only a second bit for the single item is reported as reached, though nothing
      was sent to it. */
  lemma EmptyTransferExample(value: seq<u8>)
    ensures Transferred([false, true], value, Written)
    ensures OfferAccept.SentPayload([false, true], [value]) == []
  {
    assert [false, true][1] == true;
    TransferCarriesItem([false, true], value, Written);
  }

  // --- `trace_propagate_gossip_cross_thread` ---

  /** How one peer's offer turns out: the request cannot be queued, no response or an error comes
      back, a response of another kind, or an ACCEPT. */
  datatype Outcome = NotQueued | NoResponse | OtherResponse | Accepted(bits: seq<bool>, utp: Utp)

  /** An offer to a peer and what became of it. */
  datatype Sent = Sent(peer: Enr, outcome: Outcome)

  function Peer(o: Sent): Enr { o.peer }
  predicate WasOffered(o: Sent) { !o.outcome.NotQueued? }
  predicate DidAccept(o: Sent) { o.outcome.Accepted? && true in o.outcome.bits }

  function WasReached(data: seq<u8>): Sent -> bool
  {
    (o: Sent) => o.outcome.Accepted? && Transferred(o.outcome.bits, data, o.outcome.utp)
  }

  datatype GossipResult = GossipResult(offered: seq<Enr>, accepted: seq<Enr>, transferred: seq<Enr>)

  /** The peers whose offer satisfies `p`, in order. */
  function Where(p: Sent -> bool, sent: seq<Sent>): seq<Enr>
  {
    FilterMap(p, Peer, sent)
  }

  method TracePropagateGossip(sent: seq<Sent>, data: seq<u8>) returns (r: GossipResult)
    ensures r == GossipResult(Where(WasOffered, sent), Where(DidAccept, sent), Where(WasReached(data), sent))
  {
    hide FilterMap;
    var offered: seq<Enr>, accepted: seq<Enr>, transferred: seq<Enr> := [], [], [];
    WhereNone(WasOffered);
    WhereNone(DidAccept);
    WhereNone(WasReached(data));
    for i := 0 to |sent|
      invariant offered == Where(WasOffered, sent[..i])
      invariant accepted == Where(DidAccept, sent[..i])
      invariant transferred == Where(WasReached(data), sent[..i])
    {
      assert sent[..i + 1] == sent[..i] + [sent[i]];
      FilterMapAppend(WasOffered, Peer, sent[..i], sent[i]);
      FilterMapAppend(DidAccept, Peer, sent[..i], sent[i]);
      FilterMapAppend(WasReached(data), Peer, sent[..i], sent[i]);
      var peer := sent[i].peer;
      match sent[i].outcome {
        case NotQueued =>
          continue;
        case NoResponse =>
          offered := offered + [peer];
          continue;
        case OtherResponse =>
          offered := offered + [peer];
          continue;
        case Accepted(bits, utp) =>
          offered := offered + [peer];
          if true in bits {
            accepted := accepted + [peer];
          }
          var results := ProcessAccept(bits, data, utp);
          if results[0] {
            transferred := transferred + [peer];
          }
      }
    }
    assert sent[..|sent|] == sent;
    r := GossipResult(offered, accepted, transferred);
  }

  lemma WhereNone(p: Sent -> bool)
    ensures Where(p, []) == []
  {
  }

  /** The three lists by the outcomes of the offers alone. */
  lemma TracedPeers(sent: seq<Sent>, data: seq<u8>, e: Enr)
    ensures e in Where(WasOffered, sent) <==>
            exists i :: 0 <= i < |sent| && sent[i].peer == e && sent[i].outcome != NotQueued
    ensures e in Where(DidAccept, sent) <==>
            exists i, k :: 0 <= i < |sent| && sent[i].peer == e && sent[i].outcome.Accepted?
                           && 0 <= k < |sent[i].outcome.bits| && sent[i].outcome.bits[k]
    ensures e in Where(WasReached(data), sent) <==>
            exists i, k :: && 0 <= i < |sent| && sent[i].peer == e && sent[i].outcome.Accepted?
                           && 0 <= k < |sent[i].outcome.bits| && sent[i].outcome.bits[k]
                           && sent[i].outcome.utp == Written
                           && forall v :: v in Selected(sent[i].outcome.bits, [data]) ==> |v| < 0x1_0000_0000
  {
    hide Where, Transferred, Selected;
    WhereExact(WasOffered, sent, e);
    WhereExact(DidAccept, sent, e);
    WhereExact(WasReached(data), sent, e);
    forall i | 0 <= i < |sent| && sent[i].outcome.Accepted?
      ensures Transferred(sent[i].outcome.bits, data, sent[i].outcome.utp) <==>
              && (exists k :: 0 <= k < |sent[i].outcome.bits| && sent[i].outcome.bits[k])
              && sent[i].outcome.utp == Written
              && forall v :: v in Selected(sent[i].outcome.bits, [data]) ==> |v| < 0x1_0000_0000
    {
      TransferredExactly(sent[i].outcome.bits, data, sent[i].outcome.utp);
    }
  }

  lemma WhereExact(p: Sent -> bool, sent: seq<Sent>, e: Enr)
    ensures e in Where(p, sent) <==> exists i :: 0 <= i < |sent| && sent[i].peer == e && p(sent[i])
  {
    FilterMapMember(p, Peer, sent, e);
  }

  /** `a` can be obtained from `b` by leaving elements out. */
  ghost predicate Subsequence<T>(a: seq<T>, b: seq<T>)
    decreases |b|
  {
    || a == []
    || (b != [] && Subsequence(a, b[..|b| - 1]))
    || (b != [] && a[|a| - 1] == b[|b| - 1] && Subsequence(a[..|a| - 1], b[..|b| - 1]))
  }

  lemma {:induction false} StrongerIsSubsequence(p: Sent -> bool, q: Sent -> bool, sent: seq<Sent>)
    requires forall o: Sent :: p(o) ==> q(o)
    ensures Subsequence(Where(p, sent), Where(q, sent))
  {
    hide FilterMap;
    if sent == [] {
      WhereNone(p);
    } else {
      var n := |sent| - 1;
      StrongerIsSubsequence(p, q, sent[..n]);
      assert sent == sent[..n] + [sent[n]];
      FilterMapAppend(p, Peer, sent[..n], sent[n]);
      FilterMapAppend(q, Peer, sent[..n], sent[n]);
      var a, b, x := Where(p, sent[..n]), Where(q, sent[..n]), sent[n].peer;
      assert (a + [x])[..|a|] == a && (b + [x])[..|b|] == b;
      assert a + [] == a && b + [] == b;
    }
  }

  /** In every run the peers reached are among those accepting, those among the offered, and those
      among the recipients, in the same order. */
  lemma TraceOrdering(sent: seq<Sent>, data: seq<u8>)
    ensures Subsequence(Where(WasReached(data), sent), Where(DidAccept, sent))
    ensures Subsequence(Where(DidAccept, sent), Where(WasOffered, sent))
    ensures Subsequence(Where(WasOffered, sent), MapBy(Peer, sent))
  {
    hide Where;
    StrongerIsSubsequence(WasReached(data), DidAccept, sent);
    StrongerIsSubsequence(DidAccept, WasOffered, sent);
    StrongerIsSubsequence(WasOffered, (o: Sent) => true, sent);
    WhereAll((o: Sent) => true, sent);
  }

  lemma {:induction false} WhereAll(p: Sent -> bool, sent: seq<Sent>)
    requires forall o: Sent :: p(o)
    ensures Where(p, sent) == MapBy(Peer, sent)
  {
    if sent != [] {
      var n := |sent| - 1;
      WhereAll(p, sent[..n]);
      assert sent == sent[..n] + [sent[n]];
      FilterMapAppend(p, Peer, sent[..n], sent[n]);
    }
  }
}
