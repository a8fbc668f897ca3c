/** The uTP content payload: each item preceded by its length as an unsigned LEB128 varint. */
module Payload {
  import opened Bytes
  import opened Wrappers

  const U32_LIMIT: nat := 0x1_0000_0000

  /** `SliceOutOfRange` is not an error but the panic of slicing past the end. */
  datatype Error = ItemTooLarge | VarintUnterminated | VarintTooLarge | ItemTruncated | SliceOutOfRange
  type Read<T> = Result<T, Error>

  // --- Varints ---

  /** `leb128::write::unsigned`. */
  function Varint(n: nat): (bytes: seq<u8>)
    ensures bytes != []
  {
    if n < 128 then [n] else [n % 128 + 128] + Varint(n / 128)
  }

  /** `leb128::read::unsigned` on a slice. */
  function LebRead(s: seq<u8>): Option<nat>
  {
    if s == [] then None
    else if s[0] < 128 then Some(s[0])
    else
      match LebRead(s[1..])
      case None => None
      case Some(v) => Some(s[0] - 128 + 128 * v)
  }

  /** Reads a varint of at most `k` bytes: its width and its value. */
  function ReadUpTo(buf: seq<u8>, k: nat): (r: Read<(nat, nat)>)
    ensures r.Ok? ==> 0 < r.value.0 <= |buf|
  {
    if k == 0 then Err(VarintUnterminated)
    else if buf == [] then Err(SliceOutOfRange)
    else if buf[0] < 128 then Ok((1, buf[0]))
    else
      match ReadUpTo(buf[1..], k - 1)
      case Err(e) => Err(e)
      case Ok((w, v)) => Ok((w + 1, buf[0] - 128 + 128 * v))
  }

  function CheckedVarint(buf: seq<u8>): (r: Read<(nat, nat)>)
    ensures r.Ok? ==> 0 < r.value.0 <= |buf|
  {
    match ReadUpTo(buf, 5)
    case Err(e) => Err(e)
    case Ok((w, v)) => if v < U32_LIMIT then Ok((w, v)) else Err(VarintTooLarge)
  }

  lemma {:induction false} FirstRead(buf: seq<u8>, i: nat, k: nat)
    requires 1 <= i <= |buf| && i <= k
    requires LebRead(buf[..i - 1]).None? && LebRead(buf[..i]).Some?
    ensures ReadUpTo(buf, k) == Ok((i, LebRead(buf[..i]).value))
    decreases i
  {
    if i > 1 {
      assert buf[..i - 1][1..] == buf[1..][..i - 2] && buf[..i][1..] == buf[1..][..i - 1];
      FirstRead(buf[1..], i - 1, k - 1);
    }
  }

  lemma {:induction false} NeverRead(buf: seq<u8>, i: nat, k: nat)
    requires i <= |buf| && i <= k && LebRead(buf[..i]).None?
    requires i == |buf| || i == k
    ensures ReadUpTo(buf, k) == Err(if i == k then VarintUnterminated else SliceOutOfRange)
    decreases i
  {
    if i > 0 {
      assert buf[..i][1..] == buf[1..][..i - 1];
      NeverRead(buf[1..], i - 1, k - 1);
    }
  }

  /** `read_varint`: tries the prefixes of one to five bytes; slicing past the end panics. */
  method ReadVarint(buf: seq<u8>) returns (r: Read<(nat, nat)>)
    ensures r == CheckedVarint(buf)
  {
    for i := 1 to 6
      invariant i - 1 <= |buf| && LebRead(buf[..i - 1]).None?
    {
      if i > |buf| {
        NeverRead(buf, i - 1, 5);
        return Err(SliceOutOfRange);
      }
      var v := LebRead(buf[..i]);
      if v.Some? {
        FirstRead(buf, i, 5);
        return if v.value < U32_LIMIT then Ok((i, v.value)) else Err(VarintTooLarge);
      }
    }
    NeverRead(buf, 5, 5);
    r := Err(VarintUnterminated);
  }

  lemma {:induction false} VarintReadsBack(n: nat, rest: seq<u8>, k: nat)
    requires k > 0 && n < Pow2(7 * k)
    ensures ReadUpTo(Varint(n) + rest, k) == Ok((|Varint(n)|, n))
    decreases k
  {
    if n >= 128 {
      assert Pow2(7) == 128;
      Pow2Add(7, 7 * (k - 1));
      VarintReadsBack(n / 128, rest, k - 1);
      assert (Varint(n) + rest)[1..] == Varint(n / 128) + rest;
    }
  }

  /** A 32-bit length always fits the five bytes the reader looks at. */
  lemma VarintRoundTrip(n: nat, rest: seq<u8>)
    requires n < 0x1_0000_0000
    ensures CheckedVarint(Varint(n) + rest) == Ok((|Varint(n)|, n))
  {
    Pow2Widths();
    Pow2Monotone(32, 35);
    VarintReadsBack(n, rest, 5);
  }

  // --- Payloads ---

  function Encoded(items: seq<seq<u8>>): seq<u8>
  {
    if items == [] then []
    else Varint(|items[0]|) + (items[0] + Encoded(items[1..]))
  }

  function Decoded(payload: seq<u8>): Read<seq<seq<u8>>>
    decreases |payload|
  {
    if payload == [] then Ok([])
    else
      match CheckedVarint(payload)
      case Err(e) => Err(e)
      case Ok((width, len)) =>
        if width + len > |payload| then Err(ItemTruncated)
        else Prepend(payload[width..width + len], Decoded(payload[width + len..]))
  }

  function Prepend(item: seq<u8>, r: Read<seq<seq<u8>>>): Read<seq<seq<u8>>>
  {
    match r
    case Err(e) => Err(e)
    case Ok(rest) => Ok([item] + rest)
  }

  function PrependAll(items: seq<seq<u8>>, r: Read<seq<seq<u8>>>): Read<seq<seq<u8>>>
  {
    match r
    case Err(e) => Err(e)
    case Ok(rest) => Ok(items + rest)
  }

  lemma PrependMore(items: seq<seq<u8>>, item: seq<u8>, r: Read<seq<seq<u8>>>)
    ensures PrependAll(items, Prepend(item, r)) == PrependAll(items + [item], r)
  {
    if r.Ok? {
      assert items + ([item] + r.value) == items + [item] + r.value;
    }
  }

  /** `encode_content_payload`. */
  method EncodeContentPayload(items: seq<seq<u8>>) returns (r: Read<seq<u8>>)
    ensures r == if exists i :: 0 <= i < |items| && |items[i]| >= 0x1_0000_0000 then Err(ItemTooLarge)
                 else Ok(Encoded(items))
  {
    var payload: seq<u8> := [];
    for i := 0 to |items|
      invariant payload + Encoded(items[i..]) == Encoded(items)
      invariant forall j :: 0 <= j < i ==> |items[j]| < U32_LIMIT
    {
      if |items[i]| >= U32_LIMIT {
        return Err(ItemTooLarge);
      }
      assert items[i..][1..] == items[i + 1..];
      ghost var v, rest := Varint(|items[i]|), Encoded(items[i + 1..]);
      assert payload + (v + (items[i] + rest)) == payload + v + items[i] + rest;
      payload := payload + Varint(|items[i]|);
      payload := payload + items[i];
    }
    assert items[|items|..] == [];
    assert payload + [] == payload;
    r := Ok(payload);
  }

  /** `decode_content_payload`. */
  method DecodeContentPayload(payload: seq<u8>) returns (r: Read<seq<seq<u8>>>)
    ensures r == Decoded(payload)
  {
    hide ReadUpTo, CheckedVarint;
    var items: seq<seq<u8>> := [];
    var rest := payload;
    if Decoded(payload).Ok? {
      assert [] + Decoded(payload).value == Decoded(payload).value;
    }
    while rest != []
      invariant Decoded(payload) == PrependAll(items, Decoded(rest))
      decreases |rest|
    {
      var head := ReadVarint(rest);
      if head.Err? {
        return Err(head.error);
      }
      var (width, len) := head.value;
      if width + len > |rest| {
        return Err(ItemTruncated);
      }
      PrependMore(items, rest[width..width + len], Decoded(rest[width + len..]));
      items := items + [rest[width..width + len]];
      rest := rest[width + len..];
    }
    assert items + [] == items;
    r := Ok(items);
  }

  lemma DecodeOne(item: seq<u8>, more: seq<u8>)
    requires |item| < 0x1_0000_0000
    ensures Decoded(Varint(|item|) + (item + more)) ==
            Prepend(item, Decoded(more))
  {
    hide ReadUpTo, CheckedVarint, Varint;
    var head := Varint(|item|);
    var payload := head + (item + more);
    VarintRoundTrip(|item|, item + more);
    assert payload[|head|..|head| + |item|] == item;
    assert payload[|head| + |item|..] == more;
  }

  /** Every list of items of 32-bit size, empty items included, survives the round trip. */
  lemma {:induction false} PayloadRoundTrip(items: seq<seq<u8>>)
    requires forall i :: 0 <= i < |items| ==> |items[i]| < 0x1_0000_0000
    ensures Decoded(Encoded(items)) == Ok(items)
    decreases |items|
  {
    hide ReadUpTo, CheckedVarint, Varint;
    if items != [] {
      PayloadRoundTrip(items[1..]);
      DecodeOne(items[0], Encoded(items[1..]));
      assert [items[0]] + items[1..] == items;
    }
  }

  lemma PayloadVectors()
    ensures Encoded([[1, 1], [2, 2, 2]]) == [2, 1, 1, 3, 2, 2, 2]
    ensures Varint(300) == [0xAC, 0x02]
  {
    var items: seq<seq<u8>> := [[1, 1], [2, 2, 2]];
    assert items[1..] == [[2, 2, 2]] && items[1..][1..] == [];
    assert Varint(300) == [172] + Varint(2);
  }

  // --- Payloads that no sender made ---

  lemma {:induction false} ReadPastEnd(buf: seq<u8>, k: nat)
    ensures ReadUpTo(buf, k) == Err(SliceOutOfRange) <==> |buf| < k && forall i :: 0 <= i < |buf| ==> buf[i] >= 128
    decreases k
  {
    if k > 0 && buf != [] && buf[0] >= 128 {
      ReadPastEnd(buf[1..], k - 1);
      assert forall i :: 0 < i < |buf| ==> buf[i] == buf[1..][i - 1];
    }
  }

  lemma {:induction false} ReadIgnoresRest(buf: seq<u8>, rest: seq<u8>, k: nat)
    requires ReadUpTo(buf, k).Ok?
    ensures ReadUpTo(buf + rest, k) == ReadUpTo(buf, k)
    decreases k
  {
    if buf[0] >= 128 {
      assert (buf + rest)[1..] == buf[1..] + rest;
      ReadIgnoresRest(buf[1..], rest, k - 1);
    }
  }

  lemma {:induction false} DecodedAppend(head: seq<u8>, tail: seq<u8>)
    requires Decoded(head).Ok?
    ensures Decoded(head + tail) == PrependAll(Decoded(head).value, Decoded(tail))
    decreases |head|
  {
    hide ReadUpTo;
    if head == [] {
      assert head + tail == tail;
      NothingPrepended(Decoded(tail));
    } else {
      ReadIgnoresRest(head, tail, 5);
      var (w, len) := CheckedVarint(head).value;
      var rest := head[w + len..];
      DecodedAppend(rest, tail);
      assert (head + tail)[w..w + len] == head[w..w + len];
      assert (head + tail)[w + len..] == rest + tail;
      PrependTwice(head[w..w + len], Decoded(rest).value, Decoded(tail));
    }
  }

  lemma NothingPrepended(r: Read<seq<seq<u8>>>)
    ensures PrependAll([], r) == r
  {
    if r.Ok? {
      assert [] + r.value == r.value;
    }
  }

  lemma PrependTwice(item: seq<u8>, items: seq<seq<u8>>, r: Read<seq<seq<u8>>>)
    ensures Prepend(item, PrependAll(items, r)) == PrependAll([item] + items, r)
  {
    if r.Ok? {
      assert [item] + (items + r.value) == [item] + items + r.value;
    }
  }

  /** Whole items, and then one to four bytes that announce a further byte which is not there. */
  ghost predicate EndsInsideVarint(payload: seq<u8>, k: nat)
  {
    && k < |payload| < k + 5
    && Decoded(payload[..k]).Ok?
    && forall i :: k <= i < |payload| ==> payload[i] >= 128
  }

  /** The decoder panics exactly on payloads that end inside the length of an item. */
  lemma PanicsExactly(payload: seq<u8>)
    ensures Decoded(payload) == Err(SliceOutOfRange) <==> exists k: nat :: EndsInsideVarint(payload, k)
  {
    hide ReadUpTo, CheckedVarint, Decoded;
    if Decoded(payload) == Err(SliceOutOfRange) {
      var k := PanicPoint(payload);
    }
    forall k: nat | EndsInsideVarint(payload, k) ensures Decoded(payload) == Err(SliceOutOfRange) {
      var head, tail := payload[..k], payload[k..];
      assert payload == head + tail;
      DecodedAppend(head, tail);
      TailPanics(tail);
    }
  }

  lemma TailPanics(tail: seq<u8>)
    requires 0 < |tail| < 5 && forall i :: 0 <= i < |tail| ==> tail[i] >= 128
    ensures Decoded(tail) == Err(SliceOutOfRange)
  {
    hide ReadUpTo;
    ReadPastEnd(tail, 5);
  }

  lemma {:induction false} PanicPoint(payload: seq<u8>) returns (k: nat)
    requires Decoded(payload) == Err(SliceOutOfRange)
    ensures EndsInsideVarint(payload, k)
    decreases |payload|
  {
    hide ReadUpTo;
    if CheckedVarint(payload).Err? {
      ReadPastEnd(payload, 5);
      k := 0;
      assert payload[..0] == [];
    } else {
      var (w, len) := CheckedVarint(payload).value;
      var rest := payload[w + len..];
      k := PanicPoint(rest);
      FirstItemAlone(payload, w, len);
      DecodedAppend(payload[..w + len], rest[..k]);
      k := k + (w + len);
      assert payload[..k] == payload[..w + len] + rest[..k - (w + len)];
      assert forall i :: k <= i < |payload| ==> payload[i] == rest[i - (w + len)];
    }
  }

  lemma FirstItemAlone(payload: seq<u8>, w: nat, len: nat)
    requires CheckedVarint(payload) == Ok((w, len)) && w + len <= |payload|
    ensures Decoded(payload[..w + len]) == Ok([payload[w..w + len]])
  {
    hide ReadUpTo;
    var one := payload[..w + len];
    ReadWithin(payload, w + len, 5);
    assert one[w..w + len] == payload[w..w + len];
    assert one[w + len..] == [];
    assert Decoded(one) == Prepend(payload[w..w + len], Decoded([]));
    assert [payload[w..w + len]] + [] == [payload[w..w + len]];
  }

  lemma {:induction false} ReadWithin(buf: seq<u8>, n: nat, k: nat)
    requires ReadUpTo(buf, k).Ok? && ReadUpTo(buf, k).value.0 <= n <= |buf|
    ensures ReadUpTo(buf[..n], k) == ReadUpTo(buf, k)
    decreases k
  {
    if buf[0] >= 128 {
      assert buf[..n][1..] == buf[1..][..n - 1];
      ReadWithin(buf[1..], n - 1, k - 1);
    }
  }

  /** No length is written with a redundant zero at its end. */
  predicate ShortestLengths(payload: seq<u8>)
    decreases |payload|
  {
    payload == [] ||
    match CheckedVarint(payload)
    case Err(_) => false
    case Ok((w, len)) =>
      && (w == 1 || payload[w - 1] != 0)
      && w + len <= |payload|
      && ShortestLengths(payload[w + len..])
  }

  lemma {:induction false} ShortestVarint(buf: seq<u8>, k: nat)
    requires ReadUpTo(buf, k).Ok?
    ensures var (w, v) := ReadUpTo(buf, k).value;
            buf[..w] == Varint(v) <==> w == 1 || buf[w - 1] != 0
    decreases k
  {
    var (w, v) := ReadUpTo(buf, k).value;
    if buf[0] < 128 {
      assert buf[..1] == [buf[0]];
    } else {
      ShortestVarint(buf[1..], k - 1);
      var (w', v') := ReadUpTo(buf[1..], k - 1).value;
      assert buf[..w] == [buf[0]] + buf[1..][..w'];
      assert v == buf[0] - 128 + 128 * v';
      if v' > 0 {
        assert v / 128 == v' && v % 128 + 128 == buf[0];
        assert Varint(v) == [buf[0]] + Varint(v');
        assert Varint(v)[1..] == Varint(v');
        assert buf[..w][1..] == buf[1..][..w'];
      } else {
        assert Varint(v) == [v];
        ZeroEnds(buf[1..], k - 1);
      }
    }
  }

  lemma {:induction false} ZeroEnds(buf: seq<u8>, k: nat)
    requires ReadUpTo(buf, k).Ok? && ReadUpTo(buf, k).value.1 == 0
    ensures buf[ReadUpTo(buf, k).value.0 - 1] == 0
    decreases k
  {
    if buf[0] >= 128 {
      ZeroEnds(buf[1..], k - 1);
    }
  }

  /** The first item is written back as it was read, exactly if its length is. */
  lemma FirstItemCanonical(payload: seq<u8>, w: nat, len: nat, more: seq<u8>)
    requires CheckedVarint(payload) == Ok((w, len)) && w + len <= |payload|
    ensures Varint(len) + (payload[w..w + len] + more) == payload <==>
            (w == 1 || payload[w - 1] != 0) && more == payload[w + len..]
  {
    var item, rest := payload[w..w + len], payload[w + len..];
    ShortestVarint(payload, 5);
    hide ReadUpTo, Varint;
    var coded := Varint(len) + (item + more);
    assert payload == payload[..w] + (item + rest);
    if coded == payload {
      VarintRoundTrip(len, item + more);
      assert coded[..w] == Varint(len);
      assert coded[w + len..] == more;
    }
  }

  /** Accepted bytes are what the encoder makes of the items, exactly when every length is written
      as short as it can be. */
  lemma {:induction false} PayloadCanonical(payload: seq<u8>)
    requires Decoded(payload).Ok?
    ensures Encoded(Decoded(payload).value) == payload <==> ShortestLengths(payload)
    decreases |payload|
  {
    hide ReadUpTo, Varint, CheckedVarint;
    if payload != [] {
      var (w, len) := CheckedVarint(payload).value;
      var item, rest := payload[w..w + len], payload[w + len..];
      PayloadCanonical(rest);
      var items := Decoded(rest).value;
      assert ([item] + items)[1..] == items;
      FirstItemCanonical(payload, w, len, Encoded(items));
    }
  }

  /** One continuation byte panics; a zero length written in two bytes is read and written
      differently. */
  lemma ForeignPayloads()
    ensures Decoded([0x80]) == Err(SliceOutOfRange)
    ensures Decoded([0x80, 0x00]) == Ok([[]]) && Encoded([[]]) == [0x00]
  {
    TailPanics([0x80]);
    var two: seq<u8> := [0x80, 0x00];
    assert two[1..] == [0] && ReadUpTo([0], 4) == Ok((1, 0));
    assert CheckedVarint(two) == Ok((2, 0));
    assert two[2..2] == [] && two[2..] == [];
    assert Decoded(two) == Prepend([], Decoded([]));
    var empty: seq<seq<u8>> := [[]];
    assert empty[1..] == [] && empty + [] == empty;
    assert Encoded(empty) == Varint(0) + ([] + Encoded([]));
  }
}
