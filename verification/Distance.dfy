/** The XOR metric on 256-bit identifiers, its logarithm, and identifiers drawn for a
    chosen routing-table bucket. */
module Distance {
  import opened Bytes
  import opened Wrappers

  const MAX_DISTANCE: nat := Pow2(256) - 1

  function XorByte(a: u8, b: u8): (c: u8)
  {
    XorBound(a, b, 8);
    Pow2Of8();
    Xor(a, b)
  }

  function XorBytes(x: seq<u8>, y: seq<u8>): (z: seq<u8>)
    requires |x| == |y|
    ensures |z| == |x|
  {
    seq(|x|, i requires 0 <= i < |x| => XorByte(x[i], y[i]))
  }

  /** `XorMetric::distance`: the bytewise exclusive or, read as a big-endian integer. */
  function DistanceBetween(x: Word, y: Word): (d: nat)
  {
    BigEndian(XorBytes(x, y))
  }

  method ComputeDistance(x: Word, y: Word) returns (d: nat)
    ensures d == DistanceBetween(x, y)
  {
    var z := new u8[32](_ => 0);
    for i := 0 to 32
      invariant forall k :: 0 <= k < i ==> z[k] == XorByte(x[k], y[k])
    {
      z[i] := XorByte(x[i], y[i]);
    }
    assert z[..] == XorBytes(x, y);
    d := BigEndian(z[..]);
  }

  lemma {:induction false} XorBytesIsXor(x: seq<u8>, y: seq<u8>)
    requires |x| == |y|
    ensures BigEndian(XorBytes(x, y)) == Xor(BigEndian(x), BigEndian(y))
  {
    if x != [] {
      var n := |x| - 1;
      XorBytesIsXor(x[..n], y[..n]);
      assert XorBytes(x, y)[..n] == XorBytes(x[..n], y[..n]);
      XorSplit256(BigEndian(x[..n]), x[n], BigEndian(y[..n]), y[n]);
    }
  }

  /** The byte loop computes the exclusive or of the two 256-bit integers. */
  lemma DistanceIsXor(x: Word, y: Word)
    ensures DistanceBetween(x, y) == Xor(BigEndian(x), BigEndian(y))
    ensures DistanceBetween(x, y) <= MAX_DISTANCE
  {
    XorBytesIsXor(x, y);
    BigEndianBound(XorBytes(x, y));
  }

  lemma BigEndianInjective(x: Word, y: Word)
    requires BigEndian(x) == BigEndian(y)
    ensures x == y
  {
    BigEndianInverse(x);
    BigEndianInverse(y);
  }

  // --- The metric laws (section 2.1 of the Kademlia paper) ---

  lemma MetricSymmetric(x: Word, y: Word)
    ensures DistanceBetween(x, y) == DistanceBetween(y, x)
  {
    DistanceIsXor(x, y);
    DistanceIsXor(y, x);
    XorSymmetric(BigEndian(x), BigEndian(y));
  }

  lemma MetricIdentity(x: Word, y: Word)
    ensures DistanceBetween(x, y) == 0 <==> x == y
  {
    DistanceIsXor(x, y);
    XorZero(BigEndian(x), BigEndian(y));
    if BigEndian(x) == BigEndian(y) {
      BigEndianInjective(x, y);
    }
  }

  /** Over the naturals, so a sum beyond 256 bits is not discarded. */
  lemma MetricTriangle(x: Word, y: Word, z: Word)
    ensures DistanceBetween(x, z) <= DistanceBetween(x, y) + DistanceBetween(y, z)
  {
    DistanceIsXor(x, z);
    DistanceIsXor(x, y);
    DistanceIsXor(y, z);
    XorTriangle(BigEndian(x), BigEndian(y), BigEndian(z));
  }

  /** Two identifiers at the same distance from `x` are the same. */
  lemma MetricInjective(x: Word, y: Word, z: Word)
    requires DistanceBetween(x, y) == DistanceBetween(x, z)
    ensures y == z
  {
    DistanceIsXor(x, y);
    DistanceIsXor(x, z);
    XorCancels(BigEndian(x), BigEndian(y));
    XorCancels(BigEndian(x), BigEndian(z));
    BigEndianInjective(y, z);
  }

  /** The identifier at distance `d` from `x`. */
  function PointAt(x: Word, d: nat): (y: Word)
    requires d <= MAX_DISTANCE
  {
    ToBigEndian(Xor(BigEndian(x), d), 32)
  }

  /** Unidirectionality: for each `x` and each distance exactly one identifier is that far. */
  lemma MetricUnidirectional(x: Word, d: nat)
    requires d <= MAX_DISTANCE
    ensures forall y: Word :: DistanceBetween(x, y) == d <==> y == PointAt(x, d)
  {
    var a := BigEndian(x);
    BigEndianBound(x);
    XorBound(a, d, 256);
    BigEndianRoundTrip(Xor(a, d), 32);
    DistanceIsXor(x, PointAt(x, d));
    XorCancels(a, d);
    forall y: Word | DistanceBetween(x, y) == d ensures y == PointAt(x, d) {
      MetricInjective(x, y, PointAt(x, d));
    }
  }

  // --- The 32-bit prefix kept in the database index ---

  /** `byte_vector_to_u32`. */
  method ByteVectorToU32(v: seq<u8>) returns (n: nat)
    ensures n == Prefix32(v)
    ensures n == if |v| < 4 then 0 else BigEndian(v[..4])
  {
    if |v| < 4 {
      return 0;
    }
    var bytes := new u8[4](_ => 0);
    for i := 0 to 4
      invariant forall k :: 0 <= k < i ==> bytes[k] == v[k]
    {
      bytes[i] := v[i];
    }
    assert bytes[..] == v[..4];
    n := BigEndian(bytes[..]);
  }

  function Prefix32(v: seq<u8>): (n: nat)
  {
    if |v| < 4 then 0 else BigEndian(v[..4])
  }

  /** The 32 most significant bits of a 256-bit distance. */
  function Top32(d: nat): nat
  {
    ShiftRight(d, 224)
  }

  /** The expression of the SQL `ORDER BY`. */
  function SqlKey(a: nat, b: nat): int
  {
    Or(a, b) - And(a, b)
  }

  /** The index key on two 4-byte prefixes is the top of the full distance. */
  lemma SqlKeyIsTop32(x: Word, y: Word)
    ensures SqlKey(Prefix32(x), Prefix32(y)) == Top32(DistanceBetween(x, y))
  {
    OrMinusAndIsXor(Prefix32(x), Prefix32(y));
    DistanceIsXor(x, y);
    ShiftRightXor(BigEndian(x), BigEndian(y), 224);
    BigEndianShift(x, 28);
    BigEndianShift(y, 28);
  }

  // --- Logarithm ---

  /** The number of leading zero digits of `n` written with `width` digits. */
  function LeadingZeros(n: nat, width: nat): (z: nat)
    ensures z <= width
  {
    if width == 0 || n >= Pow2(width - 1) then 0 else 1 + LeadingZeros(n, width - 1)
  }

  /** `Distance::log2`. */
  function Log2(d: nat): Option<nat>
  {
    if d == 0 then None else Some(256 - LeadingZeros(d, 256))
  }

  lemma {:induction false} LeadingZerosBrackets(n: nat, width: nat)
    requires 0 < n < Pow2(width)
    ensures var k := width - LeadingZeros(n, width); k >= 1 && Pow2(k - 1) <= n < Pow2(k)
    decreases width
  {
    if n < Pow2(width - 1) {
      LeadingZerosBrackets(n, width - 1);
    }
  }

  /** `Log2` is the position of the highest set bit, counted from one. */
  lemma Log2Correct(d: nat, k: nat)
    requires d <= MAX_DISTANCE
    ensures Log2(d) == Some(k) <==> k >= 1 && Pow2(k - 1) <= d < Pow2(k)
    ensures Log2(d) == None <==> d == 0
  {
    hide LeadingZeros, Pow2;
    if d > 0 {
      LeadingZerosBrackets(d, 256);
      if k >= 1 && Pow2(k - 1) <= d < Pow2(k) {
        BracketsUnique(d, 256 - LeadingZeros(d, 256), k);
      }
    }
  }

  lemma BracketsUnique(d: nat, j: nat, k: nat)
    requires j >= 1 && Pow2(j - 1) <= d < Pow2(j)
    requires k >= 1 && Pow2(k - 1) <= d < Pow2(k)
    ensures j == k
  {
    if j < k {
      Pow2Monotone(j, k - 1);
    } else if k < j {
      Pow2Monotone(k, j - 1);
    }
  }

  // --- Random identifiers for a bucket ---

  /** The range `random_32byte_array` draws its first non-zero byte from. */
  predicate LeadingByteInRange(leadingZeros: u8, b: u8)
  {
    var m := leadingZeros % 8;
    if m == 0 then 128 <= b
    else Pow2(7 - m) <= b < 2 * Pow2(7 - m)
  }

  /** `random_32byte_array`: `fill` and `first` are the values drawn. */
  method Random32ByteArray(leadingZeros: u8, fill: Word, first: u8) returns (r: Word)
    requires LeadingByteInRange(leadingZeros, first)
    ensures r == MaskedRandom(leadingZeros, fill, first)
  {
    var z := leadingZeros / 8;
    var bytes := new u8[32](_ => 0);
    for i := z to 32
      invariant forall k :: 0 <= k < z ==> bytes[k] == 0
      invariant forall k :: z <= k < i ==> bytes[k] == fill[k]
    {
      bytes[i] := fill[i];
    }
    bytes[z] := first;
    r := bytes[..];
    assert r == MaskedRandom(leadingZeros, fill, first);
  }

  function MaskedRandom(leadingZeros: u8, fill: Word, first: u8): (r: Word)
  {
    var z := leadingZeros / 8;
    seq(z, _ => 0) + [first] + fill[z + 1..]
  }

  /** `generate_random_node_id`. */
  function RandomNodeId(bucket: u8, local: Word, fill: Word, first: u8): (id: Word)
  {
    ToBigEndian(DistanceBetween(local, MaskedRandom(255 - bucket, fill, first)), 32)
  }

  lemma MaskedRandomRange(leadingZeros: u8, fill: Word, first: u8)
    requires LeadingByteInRange(leadingZeros, first)
    ensures Pow2(255 - leadingZeros) <= BigEndian(MaskedRandom(leadingZeros, fill, first)) < Pow2(256 - leadingZeros)
  {
    hide BigEndian;
    var r := MaskedRandom(leadingZeros, fill, first);
    var z, m := leadingZeros / 8, leadingZeros % 8;
    BigEndianDropZeros(r, z);
    BigEndianMagnitude(r[z..]);
    Pow2Of8();
    LeadingByteScaled(m, first, 8 * (31 - z));
  }

  /** Every identifier with that many leading zeros can be drawn. */
  lemma MaskedRandomCovers(leadingZeros: u8, w: Word)
    requires Pow2(255 - leadingZeros) <= BigEndian(w) < Pow2(256 - leadingZeros)
    ensures LeadingByteInRange(leadingZeros, w[leadingZeros / 8])
    ensures MaskedRandom(leadingZeros, w, w[leadingZeros / 8]) == w
  {
    hide BigEndian;
    var z, m := leadingZeros / 8, leadingZeros % 8;
    SmallMeansZeros(w, z, 256 - leadingZeros);
    BigEndianDropZeros(w, z);
    BigEndianMagnitude(w[z..]);
    LeadingByteBounds(w[z], m, 8 * (31 - z), BigEndian(w));
    assert MaskedRandom(leadingZeros, w, w[z]) == w;
  }

  lemma {:induction false} SmallMeansZeros(w: Word, z: nat, k: nat)
    requires k + 8 * z <= 256 && BigEndian(w) < Pow2(k)
    ensures forall i :: 0 <= i < z ==> w[i] == 0
  {
    hide BigEndian;
    if z > 0 {
      SmallMeansZeros(w, z - 1, k);
      BigEndianDropZeros(w, z - 1);
      BigEndianMagnitude(w[z - 1..]);
      var p := Pow2(8 * (32 - z));
      Pow2Monotone(k, 8 * (32 - z));
      if w[z - 1] > 0 {
        ProductMonotone(1, w[z - 1], p);
      }
    }
  }

  lemma LeadingByteBounds(b: nat, m: nat, k: nat, n: nat)
    requires m < 8 && Pow2(7 - m + k) <= n < Pow2(8 - m + k)
    requires b * Pow2(k) <= n < (b + 1) * Pow2(k)
    ensures Pow2(7 - m) <= b < Pow2(8 - m)
  {
    Pow2Add(7 - m, k);
    Pow2Add(8 - m, k);
    if b < Pow2(7 - m) {
      ProductMonotone(b + 1, Pow2(7 - m), Pow2(k));
    }
    if b >= Pow2(8 - m) {
      ProductMonotone(Pow2(8 - m), b, Pow2(k));
    }
  }

  lemma LeadingByteScaled(m: nat, b: nat, k: nat)
    requires m < 8 && Pow2(7 - m) <= b < Pow2(8 - m)
    ensures Pow2(7 - m + k) <= b * Pow2(k) && (b + 1) * Pow2(k) <= Pow2(8 - m + k)
  {
    Pow2Add(7 - m, k);
    Pow2Add(8 - m, k);
    ProductMonotone(Pow2(7 - m), b, Pow2(k));
    ProductMonotone(b + 1, Pow2(8 - m), Pow2(k));
  }

  lemma ProductMonotone(a: nat, b: nat, p: nat)
    requires a <= b
    ensures a * p <= b * p
  {
  }

  /** A generated identifier always falls in the bucket it was generated for. */
  lemma RandomNodeIdHitsBucket(bucket: u8, local: Word, fill: Word, first: u8)
    requires LeadingByteInRange(255 - bucket, first)
    ensures var d := DistanceBetween(RandomNodeId(bucket, local, fill, first), local);
            Pow2(bucket) <= d < Pow2(bucket + 1) && Log2(d) == Some(bucket + 1)
  {
    hide BigEndian, ToBigEndian, Xor, DistanceBetween, LeadingByteInRange, MaskedRandom, Log2;
    var r := MaskedRandom(255 - bucket, fill, first);
    var id := RandomNodeId(bucket, local, fill, first);
    var a := BigEndian(local);
    DistanceIsXor(local, r);
    BigEndianRoundTrip(DistanceBetween(local, r), 32);
    DistanceIsXor(id, local);
    XorSymmetric(BigEndian(id), a);
    XorCancels(a, BigEndian(r));
    MaskedRandomRange(255 - bucket, fill, first);
    DistanceIsXor(local, id);
    Log2Correct(BigEndian(r), bucket + 1);
  }
}
