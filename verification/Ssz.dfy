/** The SSZ building blocks of the wire codec: offset-indexed lists and bitlists, after the
    "Serialization" and "Deserialization" sections of the SSZ specification. */
module Ssz {
  import opened Bytes
  import opened Wrappers

  type u16 = n: nat | n < 0x1_0000
  type u64 = n: nat | n < 0x1_0000_0000_0000_0000

  const OFFSET_BYTES: nat := 4
  /** Exclusive bound on what a 4-byte offset can hold. */
  const OFFSET_LIMIT: nat := 0x1_0000_0000

  datatype DecodeError =
    | InvalidByteLength
    | InvalidListFixedBytesLen
    | OffsetIntoFixedPortion
    | OffsetSkipsVariableBytes
    | OffsetOutOfBounds
    | OffsetsAreDecreasing
    | UnionSelectorInvalid
    | BytesInvalid

  type Decoded<T> = Result<T, DecodeError>

  function ReadOffset(bytes: seq<u8>, at: nat): nat
    requires at + OFFSET_BYTES <= |bytes|
  {
    LittleEndian(bytes[at..at + OFFSET_BYTES])
  }

  lemma OffsetRoundTrip(n: nat)
    requires n < OFFSET_LIMIT
    ensures LittleEndian(ToLittleEndian(n, 4)) == n
  {
    Pow2Widths();
    LittleEndianRoundTrip(n, 4);
  }

  // --- Lists of variable-length items ---

  function Concat(items: seq<seq<u8>>): seq<u8>
  {
    if items == [] then [] else items[0] + Concat(items[1..])
  }

  /** One offset per item, the first being `start`. */
  function Offsets(items: seq<seq<u8>>, start: nat): (bytes: seq<u8>)
    ensures |bytes| == OFFSET_BYTES * |items|
  {
    if items == [] then [] else ToLittleEndian(start, 4) + Offsets(items[1..], start + |items[0]|)
  }

  function EncodeList(items: seq<seq<u8>>): seq<u8>
  {
    Offsets(items, OFFSET_BYTES * |items|) + Concat(items)
  }

  function DecodeList(bytes: seq<u8>): Decoded<seq<seq<u8>>>
  {
    if bytes == [] then Ok([])
    else if |bytes| < OFFSET_BYTES then Err(InvalidByteLength)
    else
      var first := ReadOffset(bytes, 0);
      if first > |bytes| then Err(OffsetOutOfBounds)
      else if first % OFFSET_BYTES != 0 || first < OFFSET_BYTES then Err(InvalidListFixedBytesLen)
      else DecodeItems(bytes, first / OFFSET_BYTES, 1, first)
  }

  /** The items from number `i` (counted from one) of `n` on; item `i` starts at `offset`. */
  function DecodeItems(bytes: seq<u8>, n: nat, i: nat, offset: nat): Decoded<seq<seq<u8>>>
    requires 1 <= i <= n && OFFSET_BYTES * n <= offset <= |bytes|
    decreases n - i
  {
    if i == n then Ok([bytes[offset..]])
    else
      var next := ReadOffset(bytes, OFFSET_BYTES * i);
      if next < OFFSET_BYTES * n then Err(OffsetIntoFixedPortion)
      else if next > |bytes| then Err(OffsetOutOfBounds)
      else if offset > next then Err(OffsetsAreDecreasing)
      else
        var rest :- DecodeItems(bytes, n, i + 1, next);
        Ok([bytes[offset..next]] + rest)
  }

  /** The running-offset encoder: offsets go straight to the buffer, item bytes are kept aside
      and appended at the end. */
  method AppendList(buf: seq<u8>, items: seq<seq<u8>>) returns (out: seq<u8>)
    ensures out == buf + EncodeList(items)
  {
    hide ToLittleEndian;
    out := buf;
    var variable: seq<u8> := [];
    var start := OFFSET_BYTES * |items|;
    for i := 0 to |items|
      invariant out + Offsets(items[i..], start + |variable|) == buf + Offsets(items, start)
      invariant variable + Concat(items[i..]) == Concat(items)
    {
      assert items[i..][1..] == items[i + 1..];
      ghost var rest := Offsets(items[i + 1..], start + |variable| + |items[i]|);
      assert out + (ToLittleEndian(start + |variable|, 4) + rest) == out + ToLittleEndian(start + |variable|, 4) + rest;
      out := out + ToLittleEndian(start + |variable|, 4);
      assert variable + (items[i] + Concat(items[i + 1..])) == variable + items[i] + Concat(items[i + 1..]);
      variable := variable + items[i];
    }
    assert items[|items|..] == [];
    assert out + [] == out && variable + [] == variable;
    out := out + variable;
  }

  // Reading back what was written

  lemma {:induction false} ConcatSplit(items: seq<seq<u8>>, k: nat)
    requires k <= |items|
    ensures Concat(items) == Concat(items[..k]) + Concat(items[k..])
  {
    if k > 0 {
      ConcatSplit(items[1..], k - 1);
      assert items[..k][1..] == items[1..][..k - 1] && items[1..][k - 1..] == items[k..];
    } else {
      assert items[..0] == [] && items[0..] == items;
    }
  }

  lemma {:induction false} OffsetAt(items: seq<seq<u8>>, start: nat, k: nat)
    requires k < |items|
    ensures Offsets(items, start)[4 * k..4 * k + 4] == ToLittleEndian(start + |Concat(items[..k])|, 4)
  {
    if k == 0 {
      assert items[..0] == [];
    } else {
      OffsetAt(items[1..], start + |items[0]|, k - 1);
      assert items[..k][1..] == items[1..][..k - 1];
      var tail := Offsets(items[1..], start + |items[0]|);
      assert Offsets(items, start)[4 * k..4 * k + 4] == tail[4 * (k - 1)..4 * (k - 1) + 4];
    }
  }

  /** Where item `k` starts. */
  ghost function StartOf(items: seq<seq<u8>>, k: nat): nat
    requires k <= |items|
  {
    OFFSET_BYTES * |items| + |Concat(items[..k])|
  }

  lemma StoredOffset(items: seq<seq<u8>>, k: nat)
    requires k < |items| && |EncodeList(items)| < 0x1_0000_0000
    ensures StartOf(items, k) <= |EncodeList(items)|
    ensures ReadOffset(EncodeList(items), 4 * k) == StartOf(items, k)
  {
    var n := 4 * |items|;
    ConcatSplit(items, k);
    OffsetAt(items, n, k);
    OffsetRoundTrip(StartOf(items, k));
    assert EncodeList(items)[4 * k..4 * k + 4] == Offsets(items, n)[4 * k..4 * k + 4];
  }

  lemma StoredItem(items: seq<seq<u8>>, k: nat)
    requires k < |items|
    ensures StartOf(items, k + 1) == StartOf(items, k) + |items[k]| <= |EncodeList(items)|
    ensures EncodeList(items)[StartOf(items, k)..StartOf(items, k + 1)] == items[k]
  {
    ConcatSplit(items, k);
    ConcatSplit(items, k + 1);
    ConcatSplit(items[..k + 1], k);
    assert items[..k + 1][..k] == items[..k] && items[..k + 1][k..] == [items[k]];
    assert Concat([items[k]]) == items[k] + Concat([]) == items[k];
  }

  lemma {:induction false} DecodeItemsOfEncoding(items: seq<seq<u8>>, i: nat)
    requires 1 <= i <= |items| && |EncodeList(items)| < 0x1_0000_0000
    ensures StartOf(items, i - 1) <= |EncodeList(items)|
    ensures DecodeItems(EncodeList(items), |items|, i, StartOf(items, i - 1)) == Ok(items[i - 1..])
    decreases |items| - i
  {
    hide EncodeList, LittleEndian;
    var bytes := EncodeList(items);
    StoredItem(items, i - 1);
    if i == |items| {
      assert items[..i] == items;
      EncodedLength(items);
      assert items[i - 1..] == [items[i - 1]];
      assert bytes[StartOf(items, i - 1)..] == bytes[StartOf(items, i - 1)..StartOf(items, i)];
    } else {
      DecodeItemsOfEncoding(items, i + 1);
      StoredOffset(items, i);
      assert items[i - 1..] == [items[i - 1]] + items[i..];
    }
  }

  lemma EncodedLength(items: seq<seq<u8>>)
    ensures |EncodeList(items)| == OFFSET_BYTES * |items| + |Concat(items)|
  {
  }

  /** Every list of byte strings, empty ones included, survives the round trip. */
  lemma ListRoundTrip(items: seq<seq<u8>>)
    requires |EncodeList(items)| < 0x1_0000_0000
    ensures DecodeList(EncodeList(items)) == Ok(items)
  {
    hide DecodeItems, LittleEndian, Concat;
    if items != [] {
      DecodeItemsOfEncoding(items, 1);
      StoredOffset(items, 0);
      ConcatNone(items);
      assert items[0..] == items;
    } else {
      ConcatNone(items);
    }
  }

  lemma ConcatNone(items: seq<seq<u8>>)
    ensures Concat(items[..0]) == []
  {
  }

  // No list has a second encoding

  lemma {:induction false} DecodedItemsReencode(bytes: seq<u8>, n: nat, i: nat, offset: nat)
    requires 1 <= i <= n && OFFSET_BYTES * n <= offset <= |bytes|
    requires ReadOffset(bytes, 4 * (i - 1)) == offset
    ensures var r := DecodeItems(bytes, n, i, offset);
            r.Ok? ==>
              && |r.value| == n - i + 1
              && Concat(r.value) == bytes[offset..]
              && Offsets(r.value, offset) == bytes[4 * (i - 1)..4 * n]
    decreases n - i
  {
    hide LittleEndian, ToLittleEndian, Concat, Offsets;
    var r := DecodeItems(bytes, n, i, offset);
    if r.Ok? {
      LittleEndianInverse(bytes[4 * (i - 1)..4 * (i - 1) + 4]);
      if i == n {
        ItemPrepended(bytes[offset..], [], offset);
        assert r.value == [bytes[offset..]] + [];
      } else {
        var next := ReadOffset(bytes, 4 * i);
        DecodedItemsReencode(bytes, n, i + 1, next);
        var rest := DecodeItems(bytes, n, i + 1, next).value;
        ItemPrepended(bytes[offset..next], rest, offset);
        assert bytes[offset..next] + bytes[next..] == bytes[offset..];
        assert bytes[4 * (i - 1)..4 * i] + bytes[4 * i..4 * n] == bytes[4 * (i - 1)..4 * n];
      }
    }
  }

  lemma ItemPrepended(item: seq<u8>, rest: seq<seq<u8>>, offset: nat)
    ensures Concat([item] + rest) == item + Concat(rest)
    ensures Offsets([item] + rest, offset) == ToLittleEndian(offset, 4) + Offsets(rest, offset + |item|)
    ensures Concat([]) == [] && Offsets([], offset + |item|) == []
  {
    assert ([item] + rest)[1..] == rest;
  }

  /** What the list decoder accepts is exactly the encoding of what it returns. */
  lemma ListCanonical(bytes: seq<u8>)
    requires DecodeList(bytes).Ok?
    ensures EncodeList(DecodeList(bytes).value) == bytes
  {
    if bytes != [] {
      var first := ReadOffset(bytes, 0);
      DecodedItemsReencode(bytes, first / 4, 1, first);
      assert bytes[..first] + bytes[first..] == bytes;
      assert bytes[0..first] == bytes[..first];
    }
  }

  // --- Fixed-size elements: the distances of FINDNODES ---

  function EncodeU16s(ns: seq<u16>): (bytes: seq<u8>)
    ensures |bytes| == 2 * |ns|
  {
    if ns == [] then [] else ToLittleEndian(ns[0], 2) + EncodeU16s(ns[1..])
  }

  function DecodeU16s(bytes: seq<u8>): Decoded<seq<u16>>
  {
    if bytes == [] then Ok([])
    else if |bytes| < 2 then Err(InvalidByteLength)
    else
      var rest :- DecodeU16s(bytes[2..]);
      Ok([ReadU16(bytes[..2])] + rest)
  }

  function ReadU16(bytes: seq<u8>): u16
    requires |bytes| == 2
  {
    LittleEndianBound(bytes);
    Pow2Widths();
    LittleEndian(bytes)
  }

  lemma U16RoundTrip(n: u16)
    ensures ReadU16(ToLittleEndian(n, 2)) == n
  {
    Pow2Widths();
    LittleEndianRoundTrip(n, 2);
  }

  lemma {:induction false} U16sRoundTrip(ns: seq<u16>)
    ensures DecodeU16s(EncodeU16s(ns)) == Ok(ns)
  {
    if ns != [] {
      U16sRoundTrip(ns[1..]);
      U16RoundTrip(ns[0]);
      assert EncodeU16s(ns)[..2] == ToLittleEndian(ns[0], 2);
      assert EncodeU16s(ns)[2..] == EncodeU16s(ns[1..]);
      assert [ns[0]] + ns[1..] == ns;
    }
  }

  lemma {:induction false} U16sCanonical(bytes: seq<u8>)
    requires DecodeU16s(bytes).Ok?
    ensures EncodeU16s(DecodeU16s(bytes).value) == bytes
  {
    if bytes != [] {
      U16sCanonical(bytes[2..]);
      LittleEndianInverse(bytes[..2]);
      var ns := DecodeU16s(bytes).value;
      assert ns[1..] == DecodeU16s(bytes[2..]).value;
      assert bytes == bytes[..2] + bytes[2..];
    }
  }

  // --- Bitlists ---

  function BitsToNat(bits: seq<bool>): nat
  {
    if bits == [] then 0 else (if bits[0] then 1 else 0) + 2 * BitsToNat(bits[1..])
  }

  function LowBits(n: nat, k: nat): (bits: seq<bool>)
    ensures |bits| == k
  {
    if k == 0 then [] else [n % 2 == 1] + LowBits(n / 2, k - 1)
  }

  function HighestSetBit(n: nat): nat
  {
    if n < 2 then 0 else 1 + HighestSetBit(n / 2)
  }

  /** The bits, then a one marking the length, in as many bytes as that takes. */
  function EncodeBits(bits: seq<bool>): seq<u8>
  {
    ToLittleEndian(BitsToNat(bits + [true]), |bits| / 8 + 1)
  }

  function DecodeBits(bytes: seq<u8>, maxLen: nat): Decoded<seq<bool>>
  {
    var n := LittleEndian(bytes);
    if n == 0 then Err(BytesInvalid)
    else
      var len := HighestSetBit(n);
      if len / 8 + 1 != |bytes| || len > maxLen then Err(BytesInvalid)
      else Ok(LowBits(n, len))
  }

  lemma {:induction false} MarkedBits(bits: seq<bool>)
    ensures var n := BitsToNat(bits + [true]);
            && 0 < n < Pow2(|bits| + 1)
            && HighestSetBit(n) == |bits|
            && LowBits(n, |bits|) == bits
  {
    if bits == [] {
      assert [true][1..] == [];
    } else {
      MarkedBits(bits[1..]);
      assert (bits + [true])[1..] == bits[1..] + [true];
      assert bits == [bits[0]] + bits[1..];
    }
  }

  lemma {:induction false} MarkedNat(n: nat)
    requires n > 0
    ensures BitsToNat(LowBits(n, HighestSetBit(n)) + [true]) == n
  {
    if n == 1 {
      assert LowBits(1, 0) + [true] == [true];
      assert [true][1..] == [];
    } else {
      MarkedNat(n / 2);
      var bits := LowBits(n, HighestSetBit(n));
      assert bits[1..] == LowBits(n / 2, HighestSetBit(n / 2));
      assert (bits + [true])[1..] == bits[1..] + [true];
    }
  }

  lemma BitsRoundTrip(bits: seq<bool>, maxLen: nat)
    requires |bits| <= maxLen
    ensures DecodeBits(EncodeBits(bits), maxLen) == Ok(bits)
  {
    var k := |bits| / 8 + 1;
    MarkedBits(bits);
    Pow2Monotone(|bits| + 1, 8 * k);
    LittleEndianRoundTrip(BitsToNat(bits + [true]), k);
  }

  lemma BitsCanonical(bytes: seq<u8>, maxLen: nat)
    requires DecodeBits(bytes, maxLen).Ok?
    ensures EncodeBits(DecodeBits(bytes, maxLen).value) == bytes
    ensures |DecodeBits(bytes, maxLen).value| <= maxLen
  {
    MarkedNat(LittleEndian(bytes));
    LittleEndianInverse(bytes);
  }
}
