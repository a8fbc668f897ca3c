/** The portal wire messages and their SSZ encoding.

    A node record is an abstract `E` with its own byte codec. */
module Wire {
  import opened Bytes
  import opened Ssz
  import opened Wrappers

  const MAX_DISCV5_PACKET_SIZE: nat := 1280
  const MAX_DISCV5_TALK_REQ_PAYLOAD_SIZE: nat := MAX_DISCV5_PACKET_SIZE - 16 - 23 - 32 - 16 - 8 - 8 - 6
  const MAX_PORTAL_NODES_ENRS_SIZE: nat := MAX_DISCV5_TALK_REQ_PAYLOAD_SIZE - 1 - 1 - 4
  const MAX_PORTAL_CONTENT_PAYLOAD_SIZE: nat := MAX_DISCV5_TALK_REQ_PAYLOAD_SIZE - 2 - 4

  /** `ByteList`: conversions into it drop what is beyond its capacity. */
  const MAX_PAYLOAD: nat := 2048
  /** `BitList<U8>`. */
  const MAX_OFFERED: nat := 8

  datatype Content<E> = ConnectionId(id: u16) | RawContent(bytes: seq<u8>) | Enrs(enrs: seq<E>)

  datatype Message<E> =
    | Ping(pingSeq: u64, pingPayload: seq<u8>)
    | Pong(pongSeq: u64, pongPayload: seq<u8>)
    | FindNodes(distances: seq<u16>)
    | Nodes(total: u8, nodes: seq<E>)
    | FindContent(key: seq<u8>)
    | ContentMessage(content: Content<E>)
    | Offer(keys: seq<seq<u8>>)
    | Accept(connectionId: u16, accepted: seq<bool>)

  // --- Node records ---

  datatype EnrCodec<!E> = EnrCodec(encode: E -> seq<u8>, decode: seq<u8> -> Decoded<E>)

  ghost predicate EnrRoundTrips<E(!new)>(c: EnrCodec<E>)
  {
    forall e: E :: c.decode(c.encode(e)) == Ok(e)
  }

  ghost predicate EnrCanonical<E(!new)>(c: EnrCodec<E>)
  {
    forall b: seq<u8> :: c.decode(b).Ok? ==> c.encode(c.decode(b).value) == b
  }

  function EncodeEnrs<E>(c: EnrCodec<E>, enrs: seq<E>): (items: seq<seq<u8>>)
    ensures |items| == |enrs|
  {
    if enrs == [] then [] else [c.encode(enrs[0])] + EncodeEnrs(c, enrs[1..])
  }

  function DecodeEnrs<E>(c: EnrCodec<E>, items: seq<seq<u8>>): Decoded<seq<E>>
  {
    if items == [] then Ok([])
    else
      var e :- c.decode(items[0]);
      var rest :- DecodeEnrs(c, items[1..]);
      Ok([e] + rest)
  }

  lemma {:induction false} EnrsRoundTrip<E(!new)>(c: EnrCodec<E>, enrs: seq<E>)
    requires EnrRoundTrips(c)
    ensures DecodeEnrs(c, EncodeEnrs(c, enrs)) == Ok(enrs)
  {
    if enrs != [] {
      EnrsRoundTrip(c, enrs[1..]);
      assert EncodeEnrs(c, enrs)[1..] == EncodeEnrs(c, enrs[1..]);
      assert [enrs[0]] + enrs[1..] == enrs;
    }
  }

  lemma {:induction false} EnrsCanonical<E(!new)>(c: EnrCodec<E>, items: seq<seq<u8>>)
    requires EnrCanonical(c) && DecodeEnrs(c, items).Ok?
    ensures EncodeEnrs(c, DecodeEnrs(c, items).value) == items
  {
    if items != [] {
      EnrsCanonical(c, items[1..]);
      var enrs := DecodeEnrs(c, items).value;
      assert enrs[1..] == DecodeEnrs(c, items[1..]).value;
      assert [items[0]] + items[1..] == items;
    }
  }

  // --- Containers with one variable-length field, after `fixed` ---

  function WithField(fixed: seq<u8>, field: seq<u8>): seq<u8>
  {
    fixed + ToLittleEndian(|fixed| + OFFSET_BYTES, 4) + field
  }

  /** The variable field of a container whose other fields take `fixed` bytes. */
  function FieldAfter(bytes: seq<u8>, fixed: nat): Decoded<seq<u8>>
  {
    if |bytes| < fixed + OFFSET_BYTES then Err(InvalidByteLength)
    else
      var offset := ReadOffset(bytes, fixed);
      if offset > |bytes| then Err(OffsetOutOfBounds)
      else if offset < fixed + OFFSET_BYTES then Err(OffsetIntoFixedPortion)
      else if offset != fixed + OFFSET_BYTES then Err(OffsetSkipsVariableBytes)
      else Ok(bytes[offset..])
  }

  lemma FieldRoundTrip(fixed: seq<u8>, field: seq<u8>)
    requires |fixed| < 1000
    ensures FieldAfter(WithField(fixed, field), |fixed|) == Ok(field)
    ensures WithField(fixed, field)[..|fixed|] == fixed
  {
    hide LittleEndian, ToLittleEndian;
    var bytes := WithField(fixed, field);
    OffsetRoundTrip(|fixed| + 4);
    assert bytes[|fixed|..|fixed| + 4] == ToLittleEndian(|fixed| + 4, 4);
  }

  lemma FieldCanonical(bytes: seq<u8>, fixed: nat)
    requires FieldAfter(bytes, fixed).Ok?
    ensures |bytes| >= fixed + OFFSET_BYTES
    ensures WithField(bytes[..fixed], FieldAfter(bytes, fixed).value) == bytes
  {
    hide LittleEndian, ToLittleEndian;
    LittleEndianInverse(bytes[fixed..fixed + 4]);
  }

  // --- Messages ---

  function Selector<E>(m: Message<E>): u8
  {
    match m
    case Ping(_, _) => 0
    case Pong(_, _) => 1
    case FindNodes(_) => 2
    case Nodes(_, _) => 3
    case FindContent(_) => 4
    case ContentMessage(_) => 5
    case Offer(_) => 6
    case Accept(_, _) => 7
  }

  function EncodeContent<E>(c: EnrCodec<E>, content: Content<E>): seq<u8>
  {
    match content
    case ConnectionId(id) => [0] + ToLittleEndian(id, 2)
    case RawContent(bytes) => [1] + bytes
    case Enrs(enrs) => [2] + EncodeList(EncodeEnrs(c, enrs))
  }

  function EncodeBody<E>(c: EnrCodec<E>, m: Message<E>): seq<u8>
  {
    match m
    case Ping(enrSeq, payload) => WithField(ToLittleEndian(enrSeq, 8), payload)
    case Pong(enrSeq, payload) => WithField(ToLittleEndian(enrSeq, 8), payload)
    case FindNodes(distances) => WithField([], EncodeU16s(distances))
    case Nodes(total, enrs) => WithField([total], EncodeList(EncodeEnrs(c, enrs)))
    case FindContent(key) => WithField([], key)
    case ContentMessage(content) => EncodeContent(c, content)
    case Offer(keys) => WithField([], EncodeList(keys))
    case Accept(id, bits) => WithField(ToLittleEndian(id, 2), EncodeBits(bits))
  }

  function Encode<E>(c: EnrCodec<E>, m: Message<E>): seq<u8>
  {
    [Selector(m)] + EncodeBody(c, m)
  }

  function ReadU64(bytes: seq<u8>): u64
    requires |bytes| == 8
  {
    LittleEndianBound(bytes);
    Pow2Widths();
    LittleEndian(bytes)
  }

  function Truncate(payload: seq<u8>): seq<u8>
  {
    if |payload| <= MAX_PAYLOAD then payload else payload[..MAX_PAYLOAD]
  }

  function DecodeContent<E>(c: EnrCodec<E>, bytes: seq<u8>): Decoded<Content<E>>
  {
    if bytes == [] then Err(InvalidByteLength)
    else
      var body := bytes[1..];
      match bytes[0]
      case 0 => if |body| == 2 then Ok(ConnectionId(ReadU16(body))) else Err(InvalidByteLength)
      case 1 => Ok(RawContent(body))
      case 2 =>
        var items :- DecodeList(body);
        var enrs :- DecodeEnrs(c, items);
        Ok(Enrs(enrs))
      case _ => Err(UnionSelectorInvalid)
  }

  function DecodeBody<E>(c: EnrCodec<E>, selector: u8, bytes: seq<u8>): Decoded<Message<E>>
  {
    match selector
    case 0 =>
      var payload :- FieldAfter(bytes, 8);
      Ok(Ping(ReadU64(bytes[..8]), Truncate(payload)))
    case 1 =>
      var payload :- FieldAfter(bytes, 8);
      Ok(Pong(ReadU64(bytes[..8]), Truncate(payload)))
    case 2 =>
      var field :- FieldAfter(bytes, 0);
      var distances :- DecodeU16s(field);
      Ok(FindNodes(distances))
    case 3 =>
      var field :- FieldAfter(bytes, 1);
      var items :- DecodeList(field);
      var enrs :- DecodeEnrs(c, items);
      Ok(Nodes(bytes[0], enrs))
    case 4 =>
      var key :- FieldAfter(bytes, 0);
      Ok(FindContent(key))
    case 5 =>
      var content :- DecodeContent(c, bytes);
      Ok(ContentMessage(content))
    case 6 =>
      var field :- FieldAfter(bytes, 0);
      var keys :- DecodeList(field);
      Ok(Offer(keys))
    case 7 =>
      var field :- FieldAfter(bytes, 2);
      var bits :- DecodeBits(field, MAX_OFFERED);
      Ok(Accept(ReadU16(bytes[..2]), bits))
    case _ => Err(UnionSelectorInvalid)
  }

  function Decode<E>(c: EnrCodec<E>, bytes: seq<u8>): Decoded<Message<E>>
  {
    if bytes == [] then Err(InvalidByteLength) else DecodeBody(c, bytes[0], bytes[1..])
  }

  // --- Round trip ---

  /** The bounds carried by the Rust types: `ByteList` payloads and `BitList<U8>`. */
  predicate WellTyped<E>(m: Message<E>)
  {
    && (m.Ping? ==> |m.pingPayload| <= 2048)
    && (m.Pong? ==> |m.pongPayload| <= 2048)
    && (m.Accept? ==> |m.accepted| <= 8)
  }

  lemma U64RoundTrip(n: u64)
    ensures ReadU64(ToLittleEndian(n, 8)) == n
  {
    Pow2Widths();
    LittleEndianRoundTrip(n, 8);
  }

  lemma ContentRoundTrip<E(!new)>(c: EnrCodec<E>, content: Content<E>)
    requires EnrRoundTrips(c) && |EncodeContent(c, content)| < 0x1_0000_0000
    ensures DecodeContent(c, EncodeContent(c, content)) == Ok(content)
  {
    hide EncodeList, DecodeList, ToLittleEndian, LittleEndian;
    match content
    case ConnectionId(id) =>
      U16RoundTrip(id);
      assert EncodeContent(c, content)[1..] == ToLittleEndian(id, 2);
    case RawContent(bytes) =>
      assert EncodeContent(c, content)[1..] == bytes;
    case Enrs(enrs) =>
      var items := EncodeEnrs(c, enrs);
      assert EncodeContent(c, content)[1..] == EncodeList(items);
      ListRoundTrip(items);
      EnrsRoundTrip(c, enrs);
  }

  lemma BodyRoundTrip<E(!new)>(c: EnrCodec<E>, m: Message<E>)
    requires EnrRoundTrips(c) && WellTyped(m) && |EncodeBody(c, m)| < 0x1_0000_0000
    ensures DecodeBody(c, Selector(m), EncodeBody(c, m)) == Ok(m)
  {
    hide EncodeList, DecodeList, ToLittleEndian, LittleEndian, FieldAfter, EncodeBits, DecodeBits,
         EncodeContent, DecodeContent, EncodeU16s, DecodeU16s;
    match m
    case Ping(n, payload) => FieldRoundTrip(ToLittleEndian(n, 8), payload); U64RoundTrip(n);
    case Pong(n, payload) => FieldRoundTrip(ToLittleEndian(n, 8), payload); U64RoundTrip(n);
    case FindNodes(distances) => FieldRoundTrip([], EncodeU16s(distances)); U16sRoundTrip(distances);
    case Nodes(total, enrs) =>
      var items := EncodeEnrs(c, enrs);
      FieldRoundTrip([total], EncodeList(items));
      assert EncodeBody(c, m)[..1] == [total];
      ListRoundTrip(items);
      EnrsRoundTrip(c, enrs);
    case FindContent(key) => FieldRoundTrip([], key);
    case ContentMessage(content) => ContentRoundTrip(c, content);
    case Offer(keys) => FieldRoundTrip([], EncodeList(keys)); ListRoundTrip(keys);
    case Accept(id, bits) =>
      FieldRoundTrip(ToLittleEndian(id, 2), EncodeBits(bits));
      U16RoundTrip(id);
      BitsRoundTrip(bits, MAX_OFFERED);
  }

  /** Every message of every variant that fits 32-bit offsets decodes to itself. */
  lemma MessageRoundTrip<E(!new)>(c: EnrCodec<E>, m: Message<E>)
    requires EnrRoundTrips(c) && WellTyped(m) && |Encode(c, m)| < 0x1_0000_0000
    ensures Decode(c, Encode(c, m)) == Ok(m)
  {
    hide EncodeBody, DecodeBody;
    BodyRoundTrip(c, m);
    assert Encode(c, m)[1..] == EncodeBody(c, m);
  }

  // --- Canonicity ---

  /** PING and PONG payloads beyond the capacity of `ByteList`. */
  predicate PayloadOverflows(bytes: seq<u8>)
  {
    bytes != [] && bytes[0] <= 1 && |bytes| > 1 + 8 + 4 + 2048
  }

  lemma ContentCanonical<E(!new)>(c: EnrCodec<E>, bytes: seq<u8>)
    requires EnrCanonical(c) && DecodeContent(c, bytes).Ok?
    ensures EncodeContent(c, DecodeContent(c, bytes).value) == bytes
  {
    hide EncodeList, DecodeList, ToLittleEndian, LittleEndian;
    var body := bytes[1..];
    assert bytes == [bytes[0]] + body;
    match bytes[0]
    case 0 => ReadU16Canonical(body);
    case 1 =>
    case _ =>
      ListCanonical(body);
      EnrsCanonical(c, DecodeList(body).value);
  }

  lemma ReadU16Canonical(bytes: seq<u8>)
    requires |bytes| == 2
    ensures ToLittleEndian(ReadU16(bytes), 2) == bytes
  {
    LittleEndianInverse(bytes);
  }

  lemma ReadU64Canonical(bytes: seq<u8>)
    requires |bytes| == 8
    ensures ToLittleEndian(ReadU64(bytes), 8) == bytes
  {
    LittleEndianInverse(bytes);
  }

  lemma FieldLength(bytes: seq<u8>, fixed: nat)
    requires FieldAfter(bytes, fixed).Ok?
    ensures |FieldAfter(bytes, fixed).value| == |bytes| - fixed - OFFSET_BYTES
  {
  }

  lemma BodyCanonical<E(!new)>(c: EnrCodec<E>, selector: u8, bytes: seq<u8>)
    requires EnrCanonical(c) && DecodeBody(c, selector, bytes).Ok?
    ensures var m := DecodeBody(c, selector, bytes).value;
            && Selector(m) == selector
            && WellTyped(m)
            && (EncodeBody(c, m) == bytes <==> !(selector <= 1 && |bytes| > 8 + OFFSET_BYTES + MAX_PAYLOAD))
  {
    hide EncodeList, DecodeList, ToLittleEndian, LittleEndian, FieldAfter, EncodeBits, DecodeBits,
         EncodeContent, DecodeContent, EncodeU16s, DecodeU16s, ReadU16, ReadU64;
    match selector
    case 0 => PingCanonical(bytes);
    case 1 => PingCanonical(bytes);
    case 2 => FieldCanonical(bytes, 0); U16sCanonical(FieldAfter(bytes, 0).value); assert bytes[..0] == [];
    case 3 =>
      FieldCanonical(bytes, 1);
      var items := DecodeList(FieldAfter(bytes, 1).value);
      ListCanonical(FieldAfter(bytes, 1).value);
      EnrsCanonical(c, items.value);
      assert bytes[..1] == [bytes[0]];
    case 4 => FieldCanonical(bytes, 0); assert bytes[..0] == [];
    case 5 => ContentCanonical(c, bytes);
    case 6 => FieldCanonical(bytes, 0); ListCanonical(FieldAfter(bytes, 0).value); assert bytes[..0] == [];
    case _ =>
      FieldCanonical(bytes, 2);
      BitsCanonical(FieldAfter(bytes, 2).value, MAX_OFFERED);
      ReadU16Canonical(bytes[..2]);
  }

  lemma PingCanonical(bytes: seq<u8>)
    requires FieldAfter(bytes, 8).Ok?
    ensures |bytes| >= 12
    ensures var payload := Truncate(FieldAfter(bytes, 8).value);
            WithField(ToLittleEndian(ReadU64(bytes[..8]), 8), payload) == bytes <==> |bytes| <= 12 + MAX_PAYLOAD
  {
    hide ToLittleEndian, LittleEndian, ReadU64, FieldAfter;
    FieldCanonical(bytes, 8);
    FieldLength(bytes, 8);
    ReadU64Canonical(bytes[..8]);
  }

  /** Accepted bytes are the encoding of the decoded message, except exactly when an oversized
      PING or PONG payload was silently cut. */
  lemma MessageCanonical<E(!new)>(c: EnrCodec<E>, bytes: seq<u8>)
    requires EnrCanonical(c) && Decode(c, bytes).Ok?
    ensures WellTyped(Decode(c, bytes).value)
    ensures Encode(c, Decode(c, bytes).value) == bytes <==> !PayloadOverflows(bytes)
  {
    hide EncodeBody, DecodeBody;
    BodyCanonical(c, bytes[0], bytes[1..]);
    assert bytes == [bytes[0]] + bytes[1..];
    var m := Decode(c, bytes).value;
    assert Encode(c, m)[1..] == EncodeBody(c, m);
  }

  /** An oversized PING: accepted, and re-encoded shorter. */
  lemma OversizedPingExample<E>(c: EnrCodec<E>, payload: seq<u8>)
    requires |payload| == 2049
    ensures var bytes := [0] + WithField(ToLittleEndian(7, 8), payload);
            Decode(c, bytes) == Ok(Ping(7, payload[..2048]))
  {
    hide ToLittleEndian, LittleEndian;
    var body := WithField(ToLittleEndian(7, 8), payload);
    assert ([0] + body)[1..] == body;
    FieldRoundTrip(ToLittleEndian(7, 8), payload);
    U64RoundTrip(7);
  }

  // --- Test vectors of the portal network specification ---

  lemma OffsetVectors()
    ensures ToLittleEndian(4, 4) == [4, 0, 0, 0]
    ensures ToLittleEndian(5, 4) == [5, 0, 0, 0]
    ensures ToLittleEndian(6, 4) == [6, 0, 0, 0]
    ensures ToLittleEndian(0x0201, 2) == [1, 2]
  {
  }

  lemma FindNodesVector<E>(c: EnrCodec<E>)
    ensures Encode(c, FindNodes([256, 255])) == [2, 4, 0, 0, 0, 0, 1, 255, 0]
  {
    assert EncodeU16s([256, 255]) == [0, 1, 255, 0];
    hide ToLittleEndian, EncodeU16s;
    OffsetVectors();
  }

  /** In particular `0x706f7274616c` is preceded by the five bytes `0x0404000000`. */
  lemma FindContentVector<E>(c: EnrCodec<E>, key: seq<u8>)
    ensures Encode(c, FindContent(key)) == [4, 4, 0, 0, 0] + key
  {
    hide ToLittleEndian;
    OffsetVectors();
  }

  lemma PingVectors<E>(c: EnrCodec<E>, payload: seq<u8>)
    ensures Encode(c, Ping(1, payload)) == [0, 1, 0, 0, 0, 0, 0, 0, 0, 12, 0, 0, 0] + payload
    ensures Encode(c, Pong(1, payload)) == [1, 1, 0, 0, 0, 0, 0, 0, 0, 12, 0, 0, 0] + payload
  {
    hide ToLittleEndian;
    PingFieldVectors();
  }

  lemma PingFieldVectors()
    ensures ToLittleEndian(1, 8) == [1, 0, 0, 0, 0, 0, 0, 0]
    ensures ToLittleEndian(12, 4) == [12, 0, 0, 0]
  {
    assert ToLittleEndian(0, 4) == [0, 0, 0, 0];
    assert ToLittleEndian(1, 4 + 4) == [1, 0, 0, 0] + ToLittleEndian(0, 4);
  }

  /** Two records: the offsets count from the start of the list. */
  lemma EnrsVector<E>(c: EnrCodec<E>, a: E, b: E)
    ensures Encode(c, ContentMessage(Enrs([a, b]))) ==
            [5, 2] + ToLittleEndian(8, 4) + ToLittleEndian(8 + |c.encode(a)|, 4) + c.encode(a) + c.encode(b)
  {
    hide EncodeList, ToLittleEndian, EncodeEnrs;
    TwoEnrsVector(c, a, b);
  }

  lemma NodesVector<E>(c: EnrCodec<E>, a: E, b: E)
    ensures Encode(c, Nodes(1, [a, b])) ==
            [3, 1, 5, 0, 0, 0]
            + (ToLittleEndian(8, 4) + ToLittleEndian(8 + |c.encode(a)|, 4) + c.encode(a) + c.encode(b))
  {
    hide EncodeList, ToLittleEndian, EncodeEnrs;
    TwoEnrsVector(c, a, b);
    OffsetVectors();
  }

  lemma TwoEnrsVector<E>(c: EnrCodec<E>, a: E, b: E)
    ensures EncodeList(EncodeEnrs(c, [a, b])) ==
            ToLittleEndian(8, 4) + ToLittleEndian(8 + |c.encode(a)|, 4) + c.encode(a) + c.encode(b)
  {
    hide ToLittleEndian, Offsets, Concat, EncodeEnrs;
    var x, y := c.encode(a), c.encode(b);
    EncodeTwoEnrs(c, a, b);
    ItemPrepended(x, [y], 8);
    ItemPrepended(y, [], 8 + |x|);
    assert [x] + [y] == [x, y] && [y] + [] == [y];
  }

  lemma EncodeTwoEnrs<E>(c: EnrCodec<E>, a: E, b: E)
    ensures EncodeEnrs(c, [a, b]) == [c.encode(a), c.encode(b)]
  {
    assert [a, b][1..] == [b] && [b][1..] == [];
    assert EncodeEnrs(c, [b]) == [c.encode(b)];
  }

  lemma OfferVector<E>(c: EnrCodec<E>)
    ensures Encode(c, Offer([[1, 2, 3]])) == [6, 4, 0, 0, 0, 4, 0, 0, 0, 1, 2, 3]
  {
    hide ToLittleEndian;
    OffsetVectors();
    var keys: seq<seq<u8>> := [[1, 2, 3]];
    assert keys[1..] == [];
    assert EncodeList(keys) == ToLittleEndian(4, 4) + [1, 2, 3];
  }

  lemma RawContentVector<E>(c: EnrCodec<E>, content: seq<u8>)
    ensures Encode(c, ContentMessage(RawContent(content))) == [5, 1] + content
  {
    hide ToLittleEndian, EncodeList, EncodeEnrs;
  }

  lemma EmptyNodesVector<E>(c: EnrCodec<E>)
    ensures Encode(c, Nodes(1, [])) == [3, 1, 5, 0, 0, 0]
  {
    hide ToLittleEndian;
    OffsetVectors();
  }

  lemma ConnectionIdVector<E>(c: EnrCodec<E>)
    ensures Encode(c, ContentMessage(ConnectionId(0x0201))) == [5, 0, 1, 2]
  {
    hide ToLittleEndian, EncodeEnrs, EncodeList;
    OffsetVectors();
  }

  lemma AcceptVector<E>(c: EnrCodec<E>)
    ensures Encode(c, Accept(0x0201, [true, false, false, false, false, false, false, false]))
         == [7, 1, 2, 6, 0, 0, 0, 1, 1]
  {
    AcceptedBitsVector();
    hide ToLittleEndian, EncodeBits;
    OffsetVectors();
  }

  lemma AcceptedBitsVector()
    ensures EncodeBits([true, false, false, false, false, false, false, false]) == [1, 1]
  {
    var bits := [true, false, false, false, false, false, false, false];
    var marked := bits + [true];
    assert marked[1..] == seq(7, _ => false) + [true];
    ZerosThenOne(7);
    assert ToLittleEndian(257, 2) == [1, 1];
  }

  lemma {:induction false} ZerosThenOne(k: nat)
    ensures BitsToNat(seq(k, _ => false) + [true]) == Pow2(k)
  {
    var bits := seq(k, _ => false) + [true];
    if k == 0 {
      assert bits[1..] == [];
    } else {
      ZerosThenOne(k - 1);
      assert bits[1..] == seq(k - 1, _ => false) + [true];
    }
  }
}
