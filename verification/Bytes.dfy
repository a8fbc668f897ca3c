/** Bytes, 32-byte words and the integers they denote.

    Machine integers are naturals with an explicit bound. The bitwise operators are
    defined on naturals digit by digit, so that one definition serves bytes, the 32-bit
    prefixes kept in the database and the 256-bit distances. */
module Bytes {

  type u8 = n: nat | n < 256

  /** A `[u8; 32]`: node id, content id or hash. */
  type Word = s: seq<u8> | |s| == 32 witness seq(32, _ => 0)

  const ZERO_WORD: Word := seq(32, _ => 0)

  function Pow2(k: nat): (p: nat)
    ensures p > 0
  {
    if k == 0 then 1 else 2 * Pow2(k - 1)
  }

  lemma {:induction false} Pow2Add(i: nat, j: nat)
    ensures Pow2(i + j) == Pow2(i) * Pow2(j)
  {
    if i > 0 {
      Pow2Add(i - 1, j);
      DoubleProduct(Pow2(i - 1), Pow2(j));
    }
  }

  lemma {:induction false} Pow2Monotone(i: nat, j: nat)
    requires i <= j
    ensures Pow2(i) <= Pow2(j)
    decreases j - i
  {
    if i < j {
      Pow2Monotone(i + 1, j);
    }
  }

  // --- Bitwise operators ---

  /** The `i`-th binary digit of `n`. */
  predicate Bit(n: nat, i: nat)
  {
    if i == 0 then n % 2 == 1 else Bit(n / 2, i - 1)
  }

  function Xor(a: nat, b: nat): (c: nat)
    decreases a + b
  {
    if a == 0 && b == 0 then 0 else 2 * Xor(a / 2, b / 2) + (if a % 2 == b % 2 then 0 else 1)
  }

  function Or(a: nat, b: nat): nat
    decreases a + b
  {
    if a == 0 && b == 0 then 0 else 2 * Or(a / 2, b / 2) + (if a % 2 == 1 || b % 2 == 1 then 1 else 0)
  }

  function And(a: nat, b: nat): nat
    decreases a + b
  {
    if a == 0 && b == 0 then 0 else 2 * And(a / 2, b / 2) + (if a % 2 == 1 && b % 2 == 1 then 1 else 0)
  }

  /** `n >> k`. */
  function ShiftRight(n: nat, k: nat): nat
  {
    if k == 0 then n else ShiftRight(n / 2, k - 1)
  }

  /** Each digit of `Xor` is the exclusive or of the operands' digits. */
  lemma {:induction false} XorBit(a: nat, b: nat, i: nat)
    ensures Bit(Xor(a, b), i) <==> (Bit(a, i) != Bit(b, i))
    decreases i
  {
    assert Xor(a, b) / 2 == Xor(a / 2, b / 2);
    if i > 0 {
      XorBit(a / 2, b / 2, i - 1);
    }
  }

  /** What makes the subtraction of the SQL order an exclusive or: it never goes negative. */
  lemma {:induction false} OrMinusAndIsXor(a: nat, b: nat)
    ensures Or(a, b) - And(a, b) == Xor(a, b)
    decreases a + b
  {
    if a != 0 || b != 0 {
      OrMinusAndIsXor(a / 2, b / 2);
    }
  }

  lemma XorDoubled(a: nat, c: nat, b: nat, d: nat)
    requires c < 2 && d < 2
    ensures Xor(2 * a + c, 2 * b + d) == 2 * Xor(a, b) + (if c == d then 0 else 1)
  {
    assert (2 * a + c) / 2 == a && (2 * a + c) % 2 == c;
    assert (2 * b + d) / 2 == b && (2 * b + d) % 2 == d;
  }

  lemma {:induction false} XorSymmetric(a: nat, b: nat)
    ensures Xor(a, b) == Xor(b, a)
    decreases a + b
  {
    if a != 0 || b != 0 {
      XorSymmetric(a / 2, b / 2);
    }
  }

  lemma {:induction false} XorZero(a: nat, b: nat)
    ensures Xor(a, b) == 0 <==> a == b
    decreases a + b
  {
    if a != 0 || b != 0 {
      XorZero(a / 2, b / 2);
    }
  }

  /** Applying the same mask twice gives back the original. */
  lemma {:induction false} XorCancels(a: nat, b: nat)
    ensures Xor(a, Xor(a, b)) == b
    decreases a + b
  {
    assert Xor(a, b) / 2 == Xor(a / 2, b / 2);
    if a != 0 || b != 0 {
      XorCancels(a / 2, b / 2);
    }
  }

  lemma {:induction false} XorTriangle(a: nat, b: nat, c: nat)
    ensures Xor(a, c) <= Xor(a, b) + Xor(b, c)
    decreases a + b + c
  {
    if a != 0 || b != 0 || c != 0 {
      XorTriangle(a / 2, b / 2, c / 2);
    }
  }

  lemma {:induction false} XorBound(a: nat, b: nat, k: nat)
    requires a < Pow2(k) && b < Pow2(k)
    ensures Xor(a, b) < Pow2(k)
    decreases k
  {
    if k > 0 {
      XorBound(a / 2, b / 2, k - 1);
    }
  }

  lemma XorSplit4(a: nat, c: nat, b: nat, d: nat)
    requires c < 4 && d < 4
    ensures Xor(4 * a + c, 4 * b + d) == 4 * Xor(a, b) + Xor(c, d)
  {
    var c1, c0, d1, d0 := c / 2, c % 2, d / 2, d % 2;
    assert c == 2 * c1 + c0 && d == 2 * d1 + d0 && c1 < 2 && d1 < 2;
    assert Xor(0, 0) == 0;
    hide Xor;
    XorDoubled(2 * a + c1, c0, 2 * b + d1, d0);
    XorDoubled(a, c1, b, d1);
    XorDoubled(c1, c0, d1, d0);
    XorDoubled(0, c1, 0, d1);
  }

  lemma XorSplit16(a: nat, c: nat, b: nat, d: nat)
    requires c < 16 && d < 16
    ensures Xor(16 * a + c, 16 * b + d) == 16 * Xor(a, b) + Xor(c, d)
  {
    hide Xor;
    XorSplit4(4 * a + c / 4, c % 4, 4 * b + d / 4, d % 4);
    XorSplit4(a, c / 4, b, d / 4);
    XorSplit4(c / 4, c % 4, d / 4, d % 4);
  }

  /** `Xor` acts on the last byte and on the bytes before it separately. */
  lemma XorSplit256(a: nat, c: nat, b: nat, d: nat)
    requires c < 256 && d < 256
    ensures Xor(256 * a + c, 256 * b + d) == 256 * Xor(a, b) + Xor(c, d)
  {
    hide Xor;
    XorSplit16(16 * a + c / 16, c % 16, 16 * b + d / 16, d % 16);
    XorSplit16(a, c / 16, b, d / 16);
    XorSplit16(c / 16, c % 16, d / 16, d % 16);
  }

  lemma DoubleProduct(p: nat, a: nat)
    ensures (2 * p) * a == 2 * (p * a)
  {
  }

  lemma {:induction false} ShiftRightXor(a: nat, b: nat, k: nat)
    ensures ShiftRight(Xor(a, b), k) == Xor(ShiftRight(a, k), ShiftRight(b, k))
    decreases k
  {
    if k > 0 {
      assert Xor(a, b) / 2 == Xor(a / 2, b / 2);
      ShiftRightXor(a / 2, b / 2, k - 1);
    }
  }

  lemma {:induction false} ShiftRightMonotone(a: nat, b: nat, k: nat)
    requires a <= b
    ensures ShiftRight(a, k) <= ShiftRight(b, k)
    decreases k
  {
    if k > 0 {
      ShiftRightMonotone(a / 2, b / 2, k - 1);
    }
  }

  lemma {:induction false} ShiftRightAdd(n: nat, j: nat, k: nat)
    ensures ShiftRight(n, j + k) == ShiftRight(ShiftRight(n, j), k)
    decreases j
  {
    if j > 0 {
      ShiftRightAdd(n / 2, j - 1, k);
    }
  }

  // --- Byte strings as integers ---

  /** `from_be_bytes` / `U256::from_big_endian`. */
  function BigEndian(s: seq<u8>): (n: nat)
  {
    if s == [] then 0 else 256 * BigEndian(s[..|s| - 1]) + s[|s| - 1]
  }

  /** The `k` low bytes of `n`, most significant first. */
  function ToBigEndian(n: nat, k: nat): (s: seq<u8>)
    ensures |s| == k
  {
    if k == 0 then [] else ToBigEndian(n / 256, k - 1) + [n % 256]
  }

  /** `from_le_bytes`. */
  function LittleEndian(s: seq<u8>): (n: nat)
  {
    if s == [] then 0 else s[0] + 256 * LittleEndian(s[1..])
  }

  /** `to_le_bytes`: the `k` low bytes of `n`, least significant first. */
  function ToLittleEndian(n: nat, k: nat): (s: seq<u8>)
    ensures |s| == k
  {
    if k == 0 then [] else [n % 256] + ToLittleEndian(n / 256, k - 1)
  }

  lemma {:induction false} BigEndianBound(s: seq<u8>)
    ensures BigEndian(s) < Pow2(8 * |s|)
  {
    if s != [] {
      BigEndianBound(s[..|s| - 1]);
      Pow2Add(8, 8 * (|s| - 1));
      assert Pow2(8) == 256 by { Pow2Of8(); }
    }
  }

  lemma Pow2Of8()
    ensures Pow2(8) == 256
  {
    assert Pow2(4) == 16;
    Pow2Add(4, 4);
  }

  lemma Pow2Widths()
    ensures Pow2(16) == 0x1_0000
    ensures Pow2(32) == 0x1_0000_0000
    ensures Pow2(64) == 0x1_0000_0000_0000_0000
  {
    hide Pow2;
    Pow2Of8();
    Pow2Add(8, 8);
    Pow2Add(16, 16);
    Pow2Add(32, 32);
  }

  lemma {:induction false} BigEndianRoundTrip(n: nat, k: nat)
    requires n < Pow2(8 * k)
    ensures BigEndian(ToBigEndian(n, k)) == n
    decreases k
  {
    if k > 0 {
      Pow2Of8();
      Pow2Add(8, 8 * (k - 1));
      BigEndianRoundTrip(n / 256, k - 1);
      assert ToBigEndian(n, k)[..k - 1] == ToBigEndian(n / 256, k - 1);
    }
  }

  lemma {:induction false} BigEndianInverse(s: seq<u8>)
    ensures ToBigEndian(BigEndian(s), |s|) == s
  {
    if s != [] {
      BigEndianInverse(s[..|s| - 1]);
      assert s == s[..|s| - 1] + [s[|s| - 1]];
    }
  }

  lemma {:induction false} LittleEndianRoundTrip(n: nat, k: nat)
    requires n < Pow2(8 * k)
    ensures LittleEndian(ToLittleEndian(n, k)) == n
    decreases k
  {
    if k > 0 {
      Pow2Of8();
      Pow2Add(8, 8 * (k - 1));
      LittleEndianRoundTrip(n / 256, k - 1);
      assert ToLittleEndian(n, k)[1..] == ToLittleEndian(n / 256, k - 1);
    }
  }

  lemma {:induction false} LittleEndianInverse(s: seq<u8>)
    ensures ToLittleEndian(LittleEndian(s), |s|) == s
  {
    if s != [] {
      LittleEndianInverse(s[1..]);
      assert s == [s[0]] + s[1..];
    }
  }

  lemma {:induction false} LittleEndianBound(s: seq<u8>)
    ensures LittleEndian(s) < Pow2(8 * |s|)
  {
    if s != [] {
      LittleEndianBound(s[1..]);
      Pow2Of8();
      Pow2Add(8, 8 * (|s| - 1));
    }
  }

  /** Dropping the last `j` bytes is a shift by `8 * j` bits. */
  lemma {:induction false} BigEndianShift(s: seq<u8>, j: nat)
    requires j <= |s|
    ensures ShiftRight(BigEndian(s), 8 * j) == BigEndian(s[..|s| - j])
    decreases j
  {
    if j == 0 {
      assert s[..|s|] == s;
    } else {
      var n := BigEndian(s);
      var init := s[..|s| - 1];
      ShiftRightAdd(n, 8, 8 * (j - 1));
      assert ShiftRight(n, 8) == n / 256 by { ShiftRightByte(n); }
      assert n / 256 == BigEndian(init);
      BigEndianShift(init, j - 1);
      assert init[..|init| - (j - 1)] == s[..|s| - j];
    }
  }

  lemma ShiftRightByte(n: nat)
    ensures ShiftRight(n, 8) == n / 256
  {
    ShiftRightAdd(n, 2, 6);
    ShiftRightAdd(n / 4, 2, 4);
    ShiftRightAdd(n / 16, 2, 2);
    assert n / 2 / 2 == n / 4 && n / 4 / 2 / 2 == n / 16 && n / 16 / 2 / 2 == n / 64 && n / 64 / 2 / 2 == n / 256;
  }

  lemma ByteProduct(b: nat, p: nat)
    ensures b * (256 * p) == 256 * (b * p)
  {
  }

  /** The leading byte fixes the magnitude. */
  lemma {:induction false} BigEndianMagnitude(s: seq<u8>)
    requires s != []
    ensures s[0] * Pow2(8 * (|s| - 1)) <= BigEndian(s) < (s[0] + 1) * Pow2(8 * (|s| - 1))
  {
    var n := |s| - 1;
    if n > 0 {
      var init := s[..n];
      BigEndianMagnitude(init);
      Pow2Of8();
      Pow2Add(8, 8 * (n - 1));
      var p := Pow2(8 * (n - 1));
      ByteProduct(s[0], p);
      ByteProduct(s[0] as nat + 1, p);
    } else {
      assert s[..0] == [];
    }
  }

  lemma {:induction false} BigEndianDropZeros(s: seq<u8>, z: nat)
    requires z <= |s|
    requires forall i :: 0 <= i < z ==> s[i] == 0
    ensures BigEndian(s) == BigEndian(s[z..])
  {
    if z < |s| {
      var init := s[..|s| - 1];
      BigEndianDropZeros(init, z);
      assert s[z..][..|s| - z - 1] == init[z..];
    } else if z > 0 {
      BigEndianDropZeros(s[..|s| - 1], z - 1);
      assert s[..|s| - 1][z - 1..] == [] == s[z..];
    }
  }
}
