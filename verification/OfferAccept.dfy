/** The OFFER/ACCEPT exchange: the receiver's bitlist, the sender's filtering, and the
    receiver's pairing of the transferred values with keys. */
module OfferAccept {
  import opened Bytes
  import opened Sorting
  import opened Wrappers
  import Distance
  import HistoryStorage
  import Payload
  import Ssz
  import Wire

  type Key = seq<u8>
  type Value = seq<u8>
  type Pair = (Key, Value)

  /** What a node knows of keys: which byte strings parse as keys, and their content ids. */
  datatype Network = Network(parses: Key -> bool, contentId: Key -> Word, validates: (Key, Value) -> bool)

  datatype OfferError = TooManyKeys | InvalidKey | UnknownSource
  datatype HandleResult = Accepting(connectionId: Ssz.u16, bits: seq<bool>) | OfferRefused(error: OfferError)

  /** `is_key_within_radius_and_unavailable` says `Store`. */
  predicate Wants(net: Network, node: Word, s: HistoryStorage.State, key: Key)
  {
    HistoryStorage.Dist(node, net.contentId(key)) <= s.radius && net.contentId(key) !in s.rows
  }

  predicate AllParse(net: Network, keys: seq<Key>)
  {
    forall i :: 0 <= i < |keys| ==> net.parses(keys[i])
  }

  // --- Receiver: deciding ---

  /** `handle_offer`. The store lock is taken anew for each key: `views[i]` is the store then. */
  method HandleOffer(net: Network, node: Word, keys: seq<Key>, views: seq<HistoryStorage.State>,
                     sourceKnown: bool, cid: Ssz.u16)
    returns (r: HandleResult)
    requires |views| == |keys|
    ensures |keys| > 8 ==> r == OfferRefused(TooManyKeys)
    ensures |keys| <= 8 && (exists i :: 0 <= i < |keys| && !net.parses(keys[i])) ==> r == OfferRefused(InvalidKey)
    ensures |keys| <= 8 && (forall i :: 0 <= i < |keys| ==> net.parses(keys[i])) ==>
              var bits := WantedBits(net, node, keys, views);
              r == if true !in bits then Accepting(0, bits)
                   else if sourceKnown then Accepting(cid, bits)
                   else OfferRefused(UnknownSource)
    ensures r.Accepting? ==> |r.bits| == |keys| && forall i :: 0 <= i < |keys| ==>
              (r.bits[i] <==> && Distance.DistanceBetween(net.contentId(keys[i]), node) <= views[i].radius
                              && net.contentId(keys[i]) !in views[i].rows)
  {
    if |keys| > Wire.MAX_OFFERED {
      return OfferRefused(TooManyKeys);
    }
    if !AllParse(net, keys) {
      return OfferRefused(InvalidKey);
    }
    var bits := new bool[|keys|](_ => false);
    for i := 0 to |keys|
      invariant forall k :: 0 <= k < i ==> bits[k] == Wants(net, node, views[k], keys[k])
    {
      bits[i] := Wants(net, node, views[i], keys[i]);
    }
    assert bits[..] == WantedBits(net, node, keys, views);
    if true !in bits[..] {
      return Accepting(0, bits[..]);
    }
    if !sourceKnown {
      return OfferRefused(UnknownSource);
    }
    r := Accepting(cid, bits[..]);
  }

  function WantedBits(net: Network, node: Word, keys: seq<Key>, views: seq<HistoryStorage.State>): (bits: seq<bool>)
    requires |views| == |keys|
    ensures |bits| == |keys|
  {
    seq(|keys|, i requires 0 <= i < |keys| => Wants(net, node, views[i], keys[i]))
  }

  lemma PutWithRoom(cfg: HistoryStorage.Config, s: HistoryStorage.State, id: Word, value: Value,
                    s': HistoryStorage.State)
    requires HistoryStorage.WellFormed(s.rows) && HistoryStorage.Total(s.rows) + |value| <= cfg.capacity
    requires HistoryStorage.PutStep(cfg, s, id, value, s')
    ensures Distance.DistanceBetween(id, cfg.node) <= s.radius ==> id in s'.rows
    ensures Distance.DistanceBetween(id, cfg.node) > s.radius ==> s' == s
  {
    hide Distance.DistanceBetween, HistoryStorage.PruneStep, HistoryStorage.Total;
    if HistoryStorage.Dist(cfg.node, id) <= s.radius {
      var t := s.(rows := HistoryStorage.Insert(s.rows, id, value));
      HistoryStorage.InsertTotal(s.rows, id, value);
      HistoryStorage.PruneBounds(cfg, t, s');
    }
  }

  /** A bit is set exactly if putting that item into the store, with room for it, would add it. */
  lemma BitMeansPutAdds(net: Network, node: Word, keys: seq<Key>, views: seq<HistoryStorage.State>, i: nat,
                        value: Value, capacity: nat, s': HistoryStorage.State)
    requires i < |keys| == |views| && HistoryStorage.WellFormed(views[i].rows)
    requires HistoryStorage.Total(views[i].rows) + |value| <= capacity
    requires HistoryStorage.PutStep(HistoryStorage.Config(node, capacity), views[i], net.contentId(keys[i]), value, s')
    ensures WantedBits(net, node, keys, views)[i] <==>
            net.contentId(keys[i]) !in views[i].rows && net.contentId(keys[i]) in s'.rows
  {
    hide Distance.DistanceBetween, HistoryStorage.PutStep, HistoryStorage.Total;
    PutWithRoom(HistoryStorage.Config(node, capacity), views[i], net.contentId(keys[i]), value, s');
  }

  // --- Sender: filtering ---

  datatype Provided = Values(values: seq<Value>) | NotAvailable | UndecodableKey

  /** `provide_requested_content`: accepted keys are looked up in the sender's own store. The lock is
      taken anew for each key: `found[i]` is what the store then has under key `i`. */
  method ProvideRequestedContent(net: Network, bits: seq<bool>, keys: seq<Key>, found: seq<Option<Value>>)
    returns (r: Provided)
    requires |found| == |keys|
    ensures !AllParse(net, keys) ==> r == UndecodableKey
    ensures AllParse(net, keys) ==> r == LookedUp(bits, found)
  {
    if !AllParse(net, keys) {
      return UndecodableKey;
    }
    var values: seq<Value> := [];
    var n := if |bits| <= |keys| then |bits| else |keys|;
    NothingBefore(LookedUp(bits, found));
    assert bits[0..] == bits && found[0..] == found;
    for i := 0 to n
      invariant LookedUp(bits, found) == ValuesBefore(values, LookedUp(bits[i..], found[i..]))
    {
      assert bits[i..][1..] == bits[i + 1..] && found[i..][1..] == found[i + 1..];
      if bits[i] {
        match found[i] {
          case None => return NotAvailable;
          case Some(v) =>
            OneMoreBefore(values, v, LookedUp(bits[i + 1..], found[i + 1..]));
            values := values + [v];
        }
      }
    }
    assert values + [] == values;
    r := Values(values);
  }

  function ValuesBefore(values: seq<Value>, r: Provided): Provided
  {
    if r.Values? then Values(values + r.values) else r
  }

  lemma NothingBefore(r: Provided)
    ensures ValuesBefore([], r) == r
  {
    if r.Values? {
      assert [] + r.values == r.values;
    }
  }

  lemma OneMoreBefore(values: seq<Value>, v: Value, r: Provided)
    ensures ValuesBefore(values, ValuesBefore([v], r)) == ValuesBefore(values + [v], r)
  {
    if r.Values? {
      assert values + ([v] + r.values) == values + [v] + r.values;
    }
  }

  function LookedUp(bits: seq<bool>, found: seq<Option<Value>>): (r: Provided)
    ensures !r.UndecodableKey?
  {
    if bits == [] || found == [] then Values([])
    else
      var rest := LookedUp(bits[1..], found[1..]);
      if !bits[0] then rest
      else if found[0].None? then NotAvailable
      else ValuesBefore([found[0].value], rest)
  }

  /** An offer answered from the store sends what a populated offer of the stored values would, if
      the accepted keys are still stored, and fails exactly if one of them is not. */
  lemma {:induction false} LookedUpIsSelected(bits: seq<bool>, found: seq<Option<Value>>, values: seq<Value>)
    requires |found| == |values|
    requires forall i :: 0 <= i < |found| && found[i].Some? ==> found[i].value == values[i]
    ensures LookedUp(bits, found) ==
            if exists i :: 0 <= i < |bits| && i < |found| && bits[i] && found[i].None? then NotAvailable
            else Values(Selected(bits, values))
  {
    if bits != [] && found != [] {
      LookedUpIsSelected(bits[1..], found[1..], values[1..]);
      assert forall i :: 0 < i < |bits| ==> bits[i] == bits[1..][i - 1];
      assert forall i :: 0 < i < |found| ==> found[i] == found[1..][i - 1];
      var rest := Selected(bits[1..], values[1..]);
      assert [] + rest == rest;
      if i :| 0 <= i < |bits[1..]| && i < |found[1..]| && bits[1..][i] && found[1..][i].None? {
        assert bits[i + 1] && found[i + 1].None?;
      }
    }
  }

  // --- Receiver: processing the payload ---

  datatype PayloadError = DecodeFailed | LengthMismatch

  /** `stored` and `gossiped` are the pairs handed to the store and to gossip; `Panicked` is the end
      of the processing without a result. */
  datatype Processed = Done(stored: seq<Pair>, gossiped: seq<Pair>) | Failed(error: PayloadError) | Panicked

  /** `process_accept_utp_payload`: `keys` are all the keys that were offered, `views[i]` the
      store when the task for pair `i` checks it. */
  method ProcessAcceptUtpPayload(net: Network, node: Word, keys: seq<Key>, payload: seq<u8>,
                                 views: seq<HistoryStorage.State>)
    returns (r: Processed)
    requires |views| == |keys|
    ensures Payload.Decoded(payload).Err? ==>
              r == if Payload.Decoded(payload).error.SliceOutOfRange? then Panicked else Failed(DecodeFailed)
    ensures Payload.Decoded(payload).Ok? && |Payload.Decoded(payload).value| != |keys| ==> r == Failed(LengthMismatch)
    ensures Payload.Decoded(payload).Ok? && |Payload.Decoded(payload).value| == |keys| ==>
              r == Done(StoredPairs(net, node, keys, Payload.Decoded(payload).value, views),
                        ValidPairs(net, keys, Payload.Decoded(payload).value))
  {
    hide ValidPairs, StoredPairs, Wants;
    var decoded := Payload.DecodeContentPayload(payload);
    if decoded.Err? {
      return if decoded.error.SliceOutOfRange? then Panicked else Failed(DecodeFailed);
    }
    var values := decoded.value;
    if |keys| != |values| {
      return Failed(LengthMismatch);
    }
    var stored: seq<Pair>, gossiped: seq<Pair> := [], [];
    NothingProcessed(net, node, keys[..0], values[..0], views[..0]);
    for i := 0 to |keys|
      invariant stored == StoredPairs(net, node, keys[..i], values[..i], views[..i])
      invariant gossiped == ValidPairs(net, keys[..i], values[..i])
    {
      ProcessedNext(net, node, keys, values, views, i);
      if net.validates(keys[i], values[i]) {
        if Wants(net, node, views[i], keys[i]) {
          stored := stored + [(keys[i], values[i])];
        }
        gossiped := gossiped + [(keys[i], values[i])];
      }
    }
    assert keys[..|keys|] == keys && values[..|keys|] == values && views[..|keys|] == views;
    r := Done(stored, gossiped);
  }

  lemma NothingProcessed(net: Network, node: Word, keys: seq<Key>, values: seq<Value>, views: seq<HistoryStorage.State>)
    requires |keys| == |values| == |views| == 0
    ensures ValidPairs(net, keys, values) == [] && StoredPairs(net, node, keys, values, views) == []
  {
  }

  function Pairs(keys: seq<Key>, values: seq<Value>): (pairs: seq<Pair>)
    requires |keys| == |values|
    ensures |pairs| == |keys| && forall i :: 0 <= i < |keys| ==> pairs[i] == (keys[i], values[i])
  {
    seq(|keys|, i requires 0 <= i < |keys| => (keys[i], values[i]))
  }

  function ValidBits(net: Network, keys: seq<Key>, values: seq<Value>): (bits: seq<bool>)
    requires |keys| == |values|
    ensures |bits| == |keys| && forall i :: 0 <= i < |keys| ==> bits[i] == net.validates(keys[i], values[i])
  {
    seq(|keys|, i requires 0 <= i < |keys| => net.validates(keys[i], values[i]))
  }

  function StoredBits(net: Network, node: Word, keys: seq<Key>, values: seq<Value>, views: seq<HistoryStorage.State>)
    : (bits: seq<bool>)
    requires |keys| == |values| == |views|
    ensures |bits| == |keys| && forall i :: 0 <= i < |keys| ==>
              bits[i] == (net.validates(keys[i], values[i]) && Wants(net, node, views[i], keys[i]))
  {
    seq(|keys|, i requires 0 <= i < |keys| =>
      net.validates(keys[i], values[i]) && Wants(net, node, views[i], keys[i]))
  }

  function ValidPairs(net: Network, keys: seq<Key>, values: seq<Value>): seq<Pair>
    requires |keys| == |values|
  {
    Selected(ValidBits(net, keys, values), Pairs(keys, values))
  }

  function StoredPairs(net: Network, node: Word, keys: seq<Key>, values: seq<Value>, views: seq<HistoryStorage.State>)
    : seq<Pair>
    requires |keys| == |values| == |views|
  {
    Selected(StoredBits(net, node, keys, values, views), Pairs(keys, values))
  }

  /** What is re-gossiped are exactly the valid pairs, and what is stored those of them whose content
      is within the radius and not yet stored when the pair is looked at. */
  lemma ProcessedPairs(net: Network, node: Word, keys: seq<Key>, values: seq<Value>,
                       views: seq<HistoryStorage.State>, p: Pair)
    requires |keys| == |values| == |views|
    ensures p in ValidPairs(net, keys, values) <==>
            exists i :: 0 <= i < |keys| && p == (keys[i], values[i]) && net.validates(keys[i], values[i])
    ensures p in StoredPairs(net, node, keys, values, views) <==>
            exists i :: 0 <= i < |keys| && p == (keys[i], values[i]) && net.validates(keys[i], values[i])
                        && Distance.DistanceBetween(net.contentId(keys[i]), node) <= views[i].radius
                        && net.contentId(keys[i]) !in views[i].rows
  {
    hide Distance.DistanceBetween, Selected;
    SelectedMember(ValidBits(net, keys, values), Pairs(keys, values), p);
    SelectedMember(StoredBits(net, node, keys, values, views), Pairs(keys, values), p);
  }

  /** Both are in the order of the offer, each pair once for each place where it is offered. */
  lemma ProcessedInOrder(net: Network, node: Word, keys: seq<Key>, values: seq<Value>,
                         views: seq<HistoryStorage.State>, i: nat)
    requires i < |keys| == |values| == |views|
    ensures var valid := (j: nat) => j < |keys| && net.validates(keys[j], values[j]);
            && |ValidPairs(net, keys, values)| == |set j: nat | j < |keys| && valid(j)|
            && (valid(i) ==>
                  var k := |set j: nat | j < i && valid(j)|;
                  k < |ValidPairs(net, keys, values)| && ValidPairs(net, keys, values)[k] == (keys[i], values[i]))
    ensures var stored := (j: nat) =>
              && j < |keys| && net.validates(keys[j], values[j])
              && Distance.DistanceBetween(net.contentId(keys[j]), node) <= views[j].radius
              && net.contentId(keys[j]) !in views[j].rows;
            && |StoredPairs(net, node, keys, values, views)| == |set j: nat | j < |keys| && stored(j)|
            && (stored(i) ==>
                  var k := |set j: nat | j < i && stored(j)|;
                  && k < |StoredPairs(net, node, keys, values, views)|
                  && StoredPairs(net, node, keys, values, views)[k] == (keys[i], values[i]))
  {
    hide Selected, Rank, Distance.DistanceBetween;
    var valid := (j: nat) => j < |keys| && net.validates(keys[j], values[j]);
    var stored := (j: nat) =>
      && j < |keys| && net.validates(keys[j], values[j])
      && Distance.DistanceBetween(net.contentId(keys[j]), node) <= views[j].radius
      && net.contentId(keys[j]) !in views[j].rows;
    SelectedByTest(ValidBits(net, keys, values), Pairs(keys, values), valid, i);
    SelectedByTest(StoredBits(net, node, keys, values, views), Pairs(keys, values), stored, i);
  }

  lemma SelectedByTest(bits: seq<bool>, pairs: seq<Pair>, test: nat -> bool, i: nat)
    requires i < |bits| == |pairs| && forall j: nat :: j < |bits| ==> bits[j] == test(j)
    ensures |Selected(bits, pairs)| == |set j: nat | j < |bits| && test(j)|
    ensures test(i) ==>
              var k := |set j: nat | j < i && test(j)|;
              k < |Selected(bits, pairs)| && Selected(bits, pairs)[k] == pairs[i]
  {
    hide Selected;
    SelectedExactly(bits, pairs);
    forall m: nat | m <= |bits| ensures Rank(bits, m) == |set j: nat | j < m && test(j)| {
      assert (set j: nat | j < m && j < |bits| && bits[j]) == set j: nat | j < m && test(j);
    }
  }

  lemma ProcessedNext(net: Network, node: Word, keys: seq<Key>, values: seq<Value>, views: seq<HistoryStorage.State>,
                      i: nat)
    requires i < |keys| == |values| == |views|
    ensures ValidPairs(net, keys[..i + 1], values[..i + 1]) ==
            ValidPairs(net, keys[..i], values[..i])
            + (if net.validates(keys[i], values[i]) then [(keys[i], values[i])] else [])
    ensures StoredPairs(net, node, keys[..i + 1], values[..i + 1], views[..i + 1]) ==
            StoredPairs(net, node, keys[..i], values[..i], views[..i])
            + (if net.validates(keys[i], values[i]) && Wants(net, node, views[i], keys[i])
               then [(keys[i], values[i])] else [])
  {
    hide Selected, Wants;
    var valid, stored := ValidBits(net, keys, values), StoredBits(net, node, keys, values, views);
    var pairs := Pairs(keys, values);
    SelectedNext(valid, pairs, i);
    SelectedNext(stored, pairs, i);
    assert valid[..i] == ValidBits(net, keys[..i], values[..i]);
    assert valid[..i + 1] == ValidBits(net, keys[..i + 1], values[..i + 1]);
    assert stored[..i] == StoredBits(net, node, keys[..i], values[..i], views[..i]);
    assert stored[..i + 1] == StoredBits(net, node, keys[..i + 1], values[..i + 1], views[..i + 1]);
    assert pairs[..i] == Pairs(keys[..i], values[..i]) && pairs[..i + 1] == Pairs(keys[..i + 1], values[..i + 1]);
  }

  // --- The exchange ---

  lemma {:induction false} SelectedLength<T>(bits: seq<bool>, values: seq<T>)
    requires |bits| == |values|
    ensures |Selected(bits, values)| <= |values|
    ensures |Selected(bits, values)| == |values| <==> false !in bits
    ensures false !in bits ==> Selected(bits, values) == values
  {
    if bits != [] {
      SelectedLength(bits[1..], values[1..]);
      assert bits == [bits[0]] + bits[1..];
      assert values == [values[0]] + values[1..];
    }
  }

  /** The payload of the values the sender selected. One beyond 32-bit size makes it send nothing:
      see `Payload.EncodeContentPayload`. */
  function SentPayload(bits: seq<bool>, values: seq<Value>): seq<u8>
  {
    Payload.Encoded(Selected(bits, values))
  }

  /** For every offer, every bitlist and every receiver store: if the receiver accepts all keys
      it processes every value under the key it was offered with; if it declines any, the
      payload it then receives is rejected whole. */
  lemma ExchangeAligned(keys: seq<Key>, values: seq<Value>, bits: seq<bool>)
    requires |keys| == |values| == |bits|
    requires forall i :: 0 <= i < |values| ==> |values[i]| < 0x1_0000_0000
    ensures var received := Payload.Decoded(SentPayload(bits, values));
            && received.Ok?
            && (|received.value| == |keys| <==> false !in bits)
            && (|received.value| == |keys| ==> received.value == values)
  {
    var chosen := Selected(bits, values);
    SelectedLength(bits, values);
    forall i | 0 <= i < |chosen| ensures |chosen[i]| < 0x1_0000_0000 {
      SelectedMember(bits, values, chosen[i]);
    }
    Payload.PayloadRoundTrip(chosen);
  }

  /** A receiver that wants one of two offered items gets that item and rejects it. */
  lemma PartialAcceptExample()
    ensures Payload.Decoded(SentPayload([true, false], [[3], [4]])) == Ok([[3]])
  {
    var values: seq<Value> := [[3], [4]];
    assert [true, false][1..] == [false] && values[1..] == [[4]];
    assert Selected([false], [[4]]) == [];
    assert Selected([true, false], values) == [[3]];
    Payload.PayloadRoundTrip([[3]]);
  }

  /** The whole exchange over its three byte strings: OFFER, ACCEPT and the uTP payload. Whatever
      is validated, stored or re-gossiped is an offered pair; and something is processed exactly
      when every key was accepted. */
  lemma ExchangeEndToEnd<E(!new)>(c: Wire.EnrCodec<E>, net: Network, node: Word, keys: seq<Key>, values: seq<Value>,
                                  views: seq<HistoryStorage.State>, later: seq<HistoryStorage.State>, cid: Ssz.u16)
    requires Wire.EnrRoundTrips(c)
    requires |keys| == |values| == |views| == |later| <= 8
    requires |Wire.Encode(c, Wire.Offer(keys))| < 0x1_0000_0000
    requires forall i :: 0 <= i < |values| ==> |values[i]| < 0x1_0000_0000
    ensures var bits := WantedBits(net, node, keys, views);
            && Wire.Decode(c, Wire.Encode(c, Wire.Offer(keys))) == Ok(Wire.Offer(keys))
            && Wire.Decode(c, Wire.Encode(c, Wire.Accept(cid, bits))) == Ok(Wire.Accept(cid, bits))
            && var received := Payload.Decoded(SentPayload(bits, values));
            && received.Ok?
            && (|received.value| == |keys| <==> false !in bits)
            && (|received.value| == |keys| ==>
                  forall p :: (p in ValidPairs(net, keys, received.value)
                               || p in StoredPairs(net, node, keys, received.value, later)) ==>
                    exists i :: 0 <= i < |keys| && p == (keys[i], values[i]))
  {
    var bits := WantedBits(net, node, keys, views);
    hide Wire.Encode, Wire.Decode, WantedBits, Selected, ValidPairs, StoredPairs;
    Wire.MessageRoundTrip(c, Wire.Offer(keys));
    AcceptFits(c, cid, bits);
    Wire.MessageRoundTrip(c, Wire.Accept(cid, bits));
    ExchangeAligned(keys, values, bits);
    forall p: Pair
      ensures p in ValidPairs(net, keys, values) || p in StoredPairs(net, node, keys, values, later) ==>
              exists i :: 0 <= i < |keys| && p == (keys[i], values[i])
    {
      ProcessedPairs(net, node, keys, values, later, p);
    }
  }

  lemma AcceptFits<E>(c: Wire.EnrCodec<E>, cid: Ssz.u16, bits: seq<bool>)
    requires |bits| <= 8
    ensures |Wire.Encode(c, Wire.Accept(cid, bits))| < 0x1_0000_0000
  {
  }
}
