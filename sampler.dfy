/**
 * `RandomNumber` (Extensions/IPRNGFortunaProviderExtensions.cs): draws
 * `ceil(numBits / 8)` bytes from the provider, clears the bits above
 * `numBits` in the most significant byte, reads the bytes as a little-endian
 * `int` and retries until the value is zero or below the upper bound.
 * The provider's output is a byte stream passed in; each draw takes the next
 * `numBytes` bytes of it.
 */
module Sampler {
  import opened Wrappers
  import opened Primitives

  /** A C# `int`. */
  type int32 = x: int | -0x8000_0000 <= x < 0x8000_0000

  const Int32Min := -0x8000_0000

  // ---------------------------------------------------------------------------
  // Arithmetic on powers of two and little-endian integers

  lemma {:induction false} Pow2Add(a: nat, b: nat)
    ensures Pow2(a + b) == Pow2(a) * Pow2(b)
  {
    if a > 0 {
      Pow2Add(a - 1, b);
      assert Pow2(a + b) == 2 * Pow2(a - 1 + b);
      DoubleProduct(Pow2(a - 1), Pow2(b));
    }
  }

  lemma DoubleProduct(x: int, y: int)
    ensures (2 * x) * y == 2 * (x * y)
  {
  }

  lemma Pow2Byte()
    ensures Pow2(7) == 128 && Pow2(8) == 256
  {
    assert Pow2(4) == 16;
  }

  lemma Pow2Split(a: nat, b: nat, c: nat)
    requires c == a + b
    ensures Pow2(c) == Pow2(a) * Pow2(b)
  {
    Pow2Add(a, b);
  }

  lemma Pow2ThreeBytes()
    ensures Pow2(24) == 0x100_0000
  {
    Pow2Byte();
    Pow2Add(8, 8);
    Pow2Add(16, 8);
  }

  /** The powers of two the byte arithmetic needs. */
  lemma Pow2Values()
    ensures Pow2(7) == 128 && Pow2(8) == 256 && Pow2(24) == 0x100_0000
    ensures Pow2(31) == 0x8000_0000 && Pow2(32) == 0x1_0000_0000
  {
    assert Pow2(4) == 16;
    assert Pow2(8) == 256;
    Pow2Add(8, 8);
    Pow2Add(16, 8);
    Pow2Add(24, 8);
  }

  lemma {:induction false} Pow2Monotone(a: nat, b: nat)
    requires a <= b
    ensures Pow2(a) <= Pow2(b)
  {
    if a < b {
      Pow2Monotone(a, b - 1);
    }
  }

  /** `BitConverter` on a little-endian machine: byte `i` weighs `256^i`. */
  function LittleEndian(bytes: seq<byte>): (r: nat)
    ensures r < Pow2(8 * |bytes|)
  {
    if bytes == [] then 0
    else
      var rest := LittleEndian(bytes[1..]);
      Pow2Add(8, 8 * (|bytes| - 1));
      Pow2Byte();
      bytes[0] + 256 * rest
  }

  /** Appending zero bytes at the most significant end leaves the value alone. */
  lemma {:induction false} LittleEndianZeros(bytes: seq<byte>, k: nat)
    ensures LittleEndian(bytes + Zeros(k)) == LittleEndian(bytes)
  {
    if bytes == [] {
      ZerosAreZero(k);
      assert bytes + Zeros(k) == Zeros(k);
    } else {
      LittleEndianZeros(bytes[1..], k);
      assert (bytes + Zeros(k))[1..] == bytes[1..] + Zeros(k);
    }
  }

  lemma {:induction false} ZerosAreZero(k: nat)
    ensures LittleEndian(Zeros(k)) == 0
  {
    if k > 0 {
      ZerosAreZero(k - 1);
      assert Zeros(k)[1..] == Zeros(k - 1);
    }
  }

  /** The most significant byte weighs `256^(n-1)`. */
  lemma {:induction false} LittleEndianLast(bytes: seq<byte>)
    requires |bytes| >= 1
    ensures LittleEndian(bytes)
         == LittleEndian(bytes[..|bytes| - 1]) + Pow2(8 * (|bytes| - 1)) * bytes[|bytes| - 1]
  {
    var n := |bytes|;
    if n > 1 {
      var rest := bytes[1..];
      LittleEndianLast(rest);
      var a, c, w := LittleEndian(rest[..n - 2]), rest[n - 2], Pow2(8 * (n - 2));
      assert bytes[..n - 1][1..] == rest[..n - 2];
      assert LittleEndian(bytes[..n - 1]) == bytes[0] + 256 * a;
      assert LittleEndian(bytes) == bytes[0] + 256 * (a + w * c);
      assert Pow2(8 * (n - 1)) == 256 * w by {
        Pow2Split(8, 8 * (n - 2), 8 * (n - 1));
        Pow2Byte();
      }
      ScaleSum(a, w, c);
    }
  }

  lemma ScaleSum(a: int, w: int, c: int)
    ensures 256 * (a + w * c) == 256 * a + (256 * w) * c
  {
  }

  /** The `n` little-endian bytes of `v`. */
  function Encode(v: nat, n: nat): (r: seq<byte>)
    requires v < Pow2(8 * n)
    ensures |r| == n && LittleEndian(r) == v
  {
    if n == 0 then []
    else
      Pow2Add(8, 8 * (n - 1));
      Pow2Byte();
      var r := [(v % 256) as byte] + Encode(v / 256, n - 1);
      assert r[1..] == Encode(v / 256, n - 1);
      r
  }

  // ---------------------------------------------------------------------------
  // The parts of RandomNumber

  /**
   * `PowUpperBound(count, pow)`: 1 for a count below 2, otherwise the least
   * exponent from `pow` on whose power of two reaches `count`.
   */
  function PowUpperBound(count: int32, pow: nat): (r: nat)
    ensures count < 2 ==> r == 1
    ensures count >= 2 ==> r >= pow && Pow2(r) >= count && (r == pow || Pow2(r - 1) < count)
    decreases count - Pow2(pow)
  {
    if count < 2 then 1
    else if Pow2(pow) >= count then pow
    else PowUpperBound(count, pow + 1)
  }

  /** `numBits`: the bits needed to write every value below the upper bound, at least 1. */
  function NumBits(upperBound: int32): (r: nat)
    ensures 1 <= r <= 31
    ensures upperBound >= 2 ==> Pow2(r) >= upperBound && Pow2(r - 1) < upperBound
    ensures upperBound < 2 ==> r == 1
    ensures upperBound <= Pow2(r)
  {
    PowUpperBoundFitsInt(upperBound);
    PowUpperBound(upperBound, 1)
  }

  /** An `int` count never needs more than 31 bits. */
  lemma PowUpperBoundFitsInt(count: int32)
    ensures PowUpperBound(count, 1) <= 31
  {
    var r := PowUpperBound(count, 1);
    if r > 31 {
      Pow2Monotone(31, r - 1);
      Pow2Values();
    }
  }

  /** `(int)Math.Ceiling(numBits / 8d)`. */
  function NumBytes(numBits: nat): (r: nat)
    ensures 8 * r >= numBits && 8 * (r - 1) < numBits
  {
    (numBits + 7) / 8
  }

  /** `8 - numBits % (numBytes * 8)`, the shift the code applies to the top byte. */
  function Offset(numBits: nat, numBytes: nat): int
    requires numBytes >= 1
  {
    8 - numBits % (numBytes * 8)
  }

  /** C# masks an `int` shift count to its low five bits; Euclidean `% 32` does the same for negative counts. */
  function ShiftCount(offset: int): (s: nat)
    ensures s < 32
  {
    offset % 32
  }

  /** `(byte)(b << offset)`: the low eight bits of the shifted value. */
  function ShiftLeftToByte(b: byte, offset: int): byte {
    (b * Pow2(ShiftCount(offset))) % 256
  }

  /** `(byte)(b >> offset)` on a non-negative value. */
  function ShiftRightToByte(b: byte, offset: int): (r: byte)
    ensures r <= b
  {
    DivAtMost(b, Pow2(ShiftCount(offset)));
    b / Pow2(ShiftCount(offset))
  }

  lemma DivAtMost(x: nat, p: int)
    requires p >= 1
    ensures 0 <= x / p <= x
  {
    ModUnique(x, p, x / p, x % p);
    MulAtLeastZero(x / p, p);
  }

  lemma MulAtLeastZero(q: int, p: int)
    requires q >= 0 && p >= 1
    ensures q <= q * p
  {
    if q > 0 {
      MulAtLeast(p, q);
    }
  }

  /** The two shifts of the mask step: keep the low `8 - s` bits for a shift `s` up to 8, clear the byte beyond. */
  function ClearExtraBits(b: byte, offset: int): byte {
    ShiftRightToByte(ShiftLeftToByte(b, offset), offset)
  }

  /** The mask step keeps the low `8 - s` bits for a shift `s` up to 8 and clears the byte beyond. */
  lemma ClearExtraBitsValue(b: byte, offset: int)
    ensures ShiftCount(offset) <= 8 ==> ClearExtraBits(b, offset) == b % Pow2(8 - ShiftCount(offset))
    ensures ShiftCount(offset) >= 8 ==> ClearExtraBits(b, offset) == 0
  {
    if ShiftCount(offset) <= 8 {
      ClearKeepsLow(b, offset);
    }
    if ShiftCount(offset) >= 8 {
      ClearDropsAll(b, offset);
    }
  }

  lemma ClearKeepsLow(b: byte, offset: int)
    requires ShiftCount(offset) <= 8
    ensures ClearExtraBits(b, offset) == b % Pow2(8 - ShiftCount(offset))
  {
    var s := ShiftCount(offset);
    Pow2Add(8 - s, s);
    Pow2Byte();
    KeepLowBits(b, Pow2(8 - s), Pow2(s));
  }

  lemma ClearDropsAll(b: byte, offset: int)
    requires ShiftCount(offset) >= 8
    ensures ClearExtraBits(b, offset) == 0
  {
    var s := ShiftCount(offset);
    Pow2Add(s - 8, 8);
    Pow2Byte();
    ClearAllBits(b, Pow2(s), Pow2(s - 8));
  }

  /** Shifting left by `s` within a byte and back keeps the low `8 - s` bits (`k == 2^(8-s)`, `w == 2^s`). */
  lemma KeepLowBits(b: nat, k: int, w: int)
    requires k >= 1 && w >= 1 && k * w == 256
    ensures ((b * w) % 256) / w == b % k
  {
    var q, t := b / k, b % k;
    ModUnique(b, k, q, t);
    assert t * w < 256 by {
      MulAtLeast(k - t, w);
      assert (k - t) * w == 256 - t * w;
    }
    MulAtLeastZero(t, w);
    assert b * w == q * 256 + t * w by {
      assert b * w == (q * k + t) * w;
    }
    ModUnique(b * w, 256, q, t * w);
    ModUnique(t * w, w, t, 0);
  }

  /** Shifting left by 8 or more within a byte leaves nothing (`w == 2^s == rest * 256`). */
  lemma ClearAllBits(b: nat, w: int, rest: int)
    requires rest >= 1 && w == rest * 256
    ensures ((b * w) % 256) / w == 0
  {
    assert b * w == (b * rest) * 256;
    ModUnique(b * w, 256, b * rest, 0);
    ModUnique(0, w, 0, 0);
  }

  /** `BitConverter.ToInt32` of four little-endian bytes. */
  function ToInt32(bytes: seq<byte>): (r: int32)
    requires |bytes| == 4
  {
    var v := LittleEndian(bytes);
    FourBytesBelow(bytes);
    if v >= 0x8000_0000 then v - 0x1_0000_0000 else v
  }

  lemma FourBytesBelow(bytes: seq<byte>)
    requires |bytes| == 4
    ensures LittleEndian(bytes) < 0x1_0000_0000
  {
    Pow2Values();
  }

  /** The mask step on a draw: the most significant byte, the last one on a little-endian machine. */
  function Masked(draw: seq<byte>, offset: int): seq<byte>
    requires |draw| >= 1
  {
    if offset != 0 then draw[|draw| - 1 := ClearExtraBits(draw[|draw| - 1], offset)] else draw
  }

  /** The value one draw of `numBytes` bytes yields, before the loop's test, for a given shift. */
  function CandidateWith(draw: seq<byte>, offset: int): int32
    requires 1 <= |draw| <= 4
  {
    ToInt32(Masked(draw, offset) + Zeros(4 - |draw|))
  }

  /** The value one draw yields in `RandomNumber(upperBound)` as written. */
  function Candidate(upperBound: int32, draw: seq<byte>): int32
    requires |draw| == NumBytes(NumBits(upperBound))
  {
    var numBits := NumBits(upperBound);
    CandidateWith(draw, Offset(numBits, NumBytes(numBits)))
  }

  /** `Math.Abs`, which throws only on `int.MinValue`; candidates are never negative. */
  function Abs(v: int32): int32
    requires v != Int32Min
  {
    if v < 0 then -v else v
  }

  // ---------------------------------------------------------------------------
  // What one draw yields

  lemma LittleEndianSingle(x: byte)
    ensures LittleEndian([x]) == x
  {
    assert [x][1..] == [];
  }

  /** A draw shorter than four bytes, or one whose masked top byte is below 128, reads as a non-negative `int`. */
  lemma CandidateWithValue(draw: seq<byte>, offset: int)
    requires 1 <= |draw| <= 4
    requires |draw| == 4 ==> Masked(draw, offset)[3] < 128
    ensures CandidateWith(draw, offset) == LittleEndian(Masked(draw, offset))
  {
    var n := |draw|;
    var m := Masked(draw, offset);
    LittleEndianZeros(m, 4 - n);
    FitsInt31(m);
  }

  /** Up to four bytes whose fourth, if any, is below 128 read as a value below `2^31`. */
  lemma FitsInt31(m: seq<byte>)
    requires 1 <= |m| <= 4
    requires |m| == 4 ==> m[3] < 128
    ensures LittleEndian(m) < 0x8000_0000
  {
    if |m| < 4 {
      Pow2ThreeBytes();
      Pow2Monotone(8 * |m|, 24);
    } else {
      FourBytesFit(m);
    }
  }

  lemma FourBytesFit(m: seq<byte>)
    requires |m| == 4 && m[|m| - 1] < 128
    ensures LittleEndian(m) < 0x8000_0000
  {
    LittleEndianLast(m);
    LittleEndianBelowTop(m);
    assert 8 * (|m| - 1) == 24;
    Pow2ThreeBytes();
    TopByteFits(LittleEndian(m[..|m| - 1]), m[|m| - 1], Pow2(8 * (|m| - 1)));
  }

  lemma TopByteFits(low: int, top: int, w: int)
    requires w == 0x100_0000 && 0 <= low < w && 0 <= top < 128
    ensures low + w * top < 0x8000_0000
  {
  }

  /**
   * The shift the code computes, by the number of bits: below 8 bits it is
   * `8 - numBits` and keeps exactly those bits; at 8 bits or more (upper
   * bounds above 128) it is 8 or more, so the whole top byte is cleared.
   */
  lemma OffsetShift(numBits: nat)
    requires 1 <= numBits <= 31
    ensures numBits < 8 ==> ShiftCount(Offset(numBits, NumBytes(numBits))) == 8 - numBits
    ensures numBits >= 8 ==> ShiftCount(Offset(numBits, NumBytes(numBits))) >= 8
    ensures Offset(numBits, NumBytes(numBits)) != 0
  {
    OffsetValue(numBits);
    if numBits < 8 {
      assert numBits % 8 == numBits;
    }
    ShiftOfOffset(Offset(numBits, NumBytes(numBits)));
  }

  /** The offsets the code can produce lie in -23..8; C# masks a negative one to `offset + 32`. */
  lemma ShiftOfOffset(offset: int)
    requires -23 <= offset <= 8 && offset != 0
    ensures ShiftCount(offset) == if offset > 0 then offset else offset + 32
  {
    if offset > 0 {
      ModUnique(offset, 32, 0, offset);
    } else {
      ModUnique(offset, 32, -1, offset + 32);
    }
  }

  /** `8 - numBits % (numBytes * 8)` is 8 when the bits fill whole bytes and `8 - numBits` otherwise. */
  lemma OffsetValue(numBits: nat)
    requires 1 <= numBits <= 31
    ensures Offset(numBits, NumBytes(numBits)) == if numBits % 8 == 0 then 8 else 8 - numBits
  {
    var width := NumBytes(numBits) * 8;
    if numBits % 8 == 0 {
      ModUnique(numBits, width, 1, 0);
    } else {
      ModUnique(numBits, width, 0, numBits);
    }
  }

  /** Bounds up to 128 need at most 7 bits, bounds above need 8 or more, and 129 to 256 exactly 8. */
  lemma NumBitsRange(upperBound: int32)
    ensures upperBound <= 128 ==> NumBits(upperBound) <= 7
    ensures upperBound > 128 ==> NumBits(upperBound) >= 8
    ensures 129 <= upperBound <= 256 ==> NumBits(upperBound) == 8
  {
    var n := NumBits(upperBound);
    if upperBound <= 128 {
      if n >= 8 {
        Pow2Monotone(7, n - 1);
        Pow2Byte();
      }
    } else {
      if n <= 7 {
        Pow2Monotone(n, 7);
        Pow2Byte();
      }
      if upperBound <= 256 && n >= 9 {
        Pow2Monotone(8, n - 1);
        Pow2Byte();
      }
    }
  }

  /** The mask step touches only the last byte of a draw. */
  lemma MaskedSplit(draw: seq<byte>, offset: int)
    requires |draw| >= 1 && offset != 0
    ensures Masked(draw, offset) == draw[..|draw| - 1] + [ClearExtraBits(draw[|draw| - 1], offset)]
  {
  }

  /** A byte appended at the most significant end weighs `256^n`. */
  lemma LittleEndianAppend(low: seq<byte>, top: byte)
    ensures LittleEndian(low + [top]) == LittleEndian(low) + Pow2(8 * |low|) * top
  {
    LittleEndianLast(low + [top]);
    assert (low + [top])[..|low|] == low;
  }

  /** With a shift, a draw reads as its lower bytes plus its masked top byte at weight `256^(n-1)`. */
  lemma CandidateWithSplit(draw: seq<byte>, offset: int)
    requires 1 <= |draw| <= 4 && offset != 0
    requires |draw| == 4 ==> ClearExtraBits(draw[3], offset) < 128
    ensures CandidateWith(draw, offset)
         == LittleEndian(draw[..|draw| - 1]) + Pow2(8 * (|draw| - 1)) * ClearExtraBits(draw[|draw| - 1], offset)
  {
    var low := draw[..|draw| - 1];
    MaskedSplit(draw, offset);
    CandidateWithValue(draw, offset);
    LittleEndianAppend(low, ClearExtraBits(draw[|draw| - 1], offset));
  }

  /** A shift of 8 or more clears the top byte: what is left is the draw's lower bytes. */
  lemma CandidateTopCleared(draw: seq<byte>, offset: int)
    requires 1 <= |draw| <= 4 && offset != 0 && ShiftCount(offset) >= 8
    ensures CandidateWith(draw, offset) == LittleEndian(draw[..|draw| - 1]) < Pow2(8 * (|draw| - 1))
  {
    ClearDropsAll(draw[|draw| - 1], offset);
    CandidateWithSplit(draw, offset);
  }

  /** A one-byte draw with a shift `s` up to 8 keeps its low `8 - s` bits. */
  lemma CandidateLowBits(draw: seq<byte>, offset: int)
    requires |draw| == 1 && offset != 0 && ShiftCount(offset) <= 8
    ensures CandidateWith(draw, offset) == draw[0] % Pow2(8 - ShiftCount(offset))
  {
    var kept := ClearExtraBits(draw[0], offset);
    ClearKeepsLow(draw[0], offset);
    MaskedSplit(draw, offset);
    assert Masked(draw, offset) == [kept];
    CandidateWithValue(draw, offset);
    LittleEndianSingle(kept);
  }

  /**
   * The candidate of one draw is never negative, so `Math.Abs` changes
   * nothing. With at most 128 values it is the draw's low `numBits` bits; with
   * more, it is the draw without its top byte.
   */
  lemma CandidateValue(upperBound: int32, draw: seq<byte>)
    requires |draw| == NumBytes(NumBits(upperBound))
    ensures 0 <= Candidate(upperBound, draw) < 0x100_0000
    ensures NumBits(upperBound) < 8 ==> Candidate(upperBound, draw) == draw[0] % Pow2(NumBits(upperBound))
    ensures NumBits(upperBound) >= 8 ==>
      Candidate(upperBound, draw) == LittleEndian(draw[..|draw| - 1]) < Pow2(8 * (|draw| - 1))
  {
    if NumBits(upperBound) < 8 {
      SmallBoundCandidate(upperBound, draw);
    } else {
      LargeBoundCandidate(upperBound, draw);
    }
  }

  lemma SmallBoundCandidate(upperBound: int32, draw: seq<byte>)
    requires |draw| == NumBytes(NumBits(upperBound)) && NumBits(upperBound) < 8
    ensures Candidate(upperBound, draw) == draw[0] % Pow2(NumBits(upperBound)) < 0x100_0000
  {
    var numBits := NumBits(upperBound);
    var offset := Offset(numBits, NumBytes(numBits));
    OffsetShift(numBits);
    assert |draw| == 1;
    CandidateLowBits(draw, offset);
    assert 8 - ShiftCount(offset) == numBits;
    Pow2Monotone(numBits, 24);
    Pow2ThreeBytes();
  }

  lemma LargeBoundCandidate(upperBound: int32, draw: seq<byte>)
    requires |draw| == NumBytes(NumBits(upperBound)) && NumBits(upperBound) >= 8
    ensures Candidate(upperBound, draw) == LittleEndian(draw[..|draw| - 1]) < Pow2(8 * (|draw| - 1))
    ensures Candidate(upperBound, draw) < 0x100_0000
  {
    var numBits := NumBits(upperBound);
    var offset := Offset(numBits, NumBytes(numBits));
    OffsetShift(numBits);
    assert 1 <= |draw| <= 4;
    CandidateTopCleared(draw, offset);
    Pow2Monotone(8 * (|draw| - 1), 24);
    Pow2ThreeBytes();
  }

  // ---------------------------------------------------------------------------
  // The loop

  /**
   * `RandomNumber(upperBound)` over the provider's byte stream: the value of
   * the first draw the loop accepts, or None if the stream ends first. Every
   * value returned is in `[0, upperBound)`, or 0 when the bound is below 1.
   */
  function Sample(upperBound: int32, stream: seq<byte>): (r: Option<int32>)
    ensures r.Some? ==> 0 <= r.value
    ensures r.Some? && upperBound >= 1 ==> r.value < upperBound
    ensures r.Some? && upperBound <= 1 ==> r.value == 0
    decreases |stream|
  {
    var numBytes := NumBytes(NumBits(upperBound));
    if |stream| < numBytes then None
    else
      var v := Candidate(upperBound, stream[..numBytes]);
      CandidateValue(upperBound, stream[..numBytes]);
      if v != 0 && v >= upperBound then Sample(upperBound, stream[numBytes..])
      else Some(Abs(v))
  }

  /** The extension method: draw into one reused buffer, mask its top byte in place, read it as an `int`. */
  method RandomNumber(upperBound: int32, stream: seq<byte>) returns (r: Option<int32>)
    ensures r == Sample(upperBound, stream)
  {
    var numBits := NumBits(upperBound);
    var numBytes := NumBytes(numBits);
    var offset := Offset(numBits, numBytes);
    var retVal: int32;
    var bytes := new byte[numBytes](_ => 0);
    var remaining := stream;
    while true
      invariant bytes.Length == numBytes
      invariant Sample(upperBound, remaining) == Sample(upperBound, stream)
      decreases |remaining|
    {
      if |remaining| < numBytes {
        SampleExhausted(upperBound, remaining);
        return None;
      }
      retVal := DrawCandidate(upperBound, bytes, remaining[..numBytes], offset);
      if retVal != 0 && retVal >= upperBound {
        SampleRejects(upperBound, remaining);
        remaining := remaining[numBytes..];
      } else {
        SampleAccepts(upperBound, remaining);
        return Some(Abs(retVal));
      }
    }
  }

  /** A first draw the loop rejects leaves the outcome to the rest of the stream. */
  lemma SampleRejects(upperBound: int32, stream: seq<byte>)
    requires |stream| >= NumBytes(NumBits(upperBound))
    requires var v := Candidate(upperBound, stream[..NumBytes(NumBits(upperBound))]); v != 0 && v >= upperBound
    ensures Sample(upperBound, stream) == Sample(upperBound, stream[NumBytes(NumBits(upperBound))..])
  {
    SampleUnfold(upperBound, stream);
  }

  /** A first draw the loop accepts is the outcome, and it is never negative. */
  lemma SampleAccepts(upperBound: int32, stream: seq<byte>)
    requires |stream| >= NumBytes(NumBits(upperBound))
    requires var v := Candidate(upperBound, stream[..NumBytes(NumBits(upperBound))]); !(v != 0 && v >= upperBound)
    ensures var v := Candidate(upperBound, stream[..NumBytes(NumBits(upperBound))]);
      v >= 0 && Sample(upperBound, stream) == Some(Abs(v))
  {
    SampleUnfold(upperBound, stream);
  }

  /** One turn of the loop body: fill the buffer with `draw`, mask it, read it as an `int`. */
  method DrawCandidate(upperBound: int32, bytes: array<byte>, draw: seq<byte>, offset: int) returns (retVal: int32)
    requires |draw| == bytes.Length == NumBytes(NumBits(upperBound))
    requires offset == Offset(NumBits(upperBound), NumBytes(NumBits(upperBound)))
    modifies bytes
    ensures bytes[..] == Masked(draw, offset)
    ensures retVal == Candidate(upperBound, draw)
  {
    DrawMasked(bytes, draw, offset);
    var masked := bytes[..];
    retVal := ToInt32(masked + Zeros(4 - bytes.Length));
    CandidateOfMasked(upperBound, draw, masked);
  }

  /** The value read from the masked draw is the draw's candidate. */
  lemma CandidateOfMasked(upperBound: int32, draw: seq<byte>, masked: seq<byte>)
    requires |draw| == NumBytes(NumBits(upperBound))
    requires masked == Masked(draw, Offset(NumBits(upperBound), NumBytes(NumBits(upperBound))))
    ensures Candidate(upperBound, draw) == ToInt32(masked + Zeros(4 - |draw|))
  {
  }

  /** A stream shorter than one draw yields nothing. */
  lemma SampleExhausted(upperBound: int32, stream: seq<byte>)
    requires |stream| < NumBytes(NumBits(upperBound))
    ensures Sample(upperBound, stream) == None
  {
  }

  /** One turn of the loop: the first draw decides between returning its value and drawing again. */
  lemma SampleUnfold(upperBound: int32, stream: seq<byte>)
    requires |stream| >= NumBytes(NumBits(upperBound))
    ensures var draw := stream[..NumBytes(NumBits(upperBound))];
      && Candidate(upperBound, draw) >= 0
      && Sample(upperBound, stream) ==
        if Candidate(upperBound, draw) != 0 && Candidate(upperBound, draw) >= upperBound
        then Sample(upperBound, stream[NumBytes(NumBits(upperBound))..])
        else Some(Abs(Candidate(upperBound, draw)))
  {
    CandidateValue(upperBound, stream[..NumBytes(NumBits(upperBound))]);
  }

  /** `provider.GetBytes(bytes)` followed by the two shifts of the top byte. */
  method DrawMasked(bytes: array<byte>, draw: seq<byte>, offset: int)
    requires |draw| == bytes.Length >= 1
    modifies bytes
    ensures bytes[..] == Masked(draw, offset)
  {
    ArrayCopy(draw, bytes, 0);
    var last := bytes.Length - 1;
    if offset != 0 {
      bytes[last] := ShiftLeftToByte(bytes[last], offset);
      bytes[last] := ShiftRightToByte(bytes[last], offset);
    }
  }

  // ---------------------------------------------------------------------------
  // Upper bounds of at most 128

  /** Up to 128 values the draw is one byte, and every value below the bound is returned by some draw. */
  lemma SmallBoundReachesEvery(upperBound: int32, v: nat)
    requires 1 <= upperBound <= 128 && v < upperBound
    ensures Sample(upperBound, [v as byte]) == Some(v as int32)
  {
    NumBitsRange(upperBound);
    var numBits := NumBits(upperBound);
    CandidateValue(upperBound, [v as byte]);
    ModUnique(v, Pow2(numBits), 0, v);
    assert [v as byte][..1] == [v as byte];
  }

  // ---------------------------------------------------------------------------
  // Upper bounds above 128: the shift clears the whole top byte

  /**
   * As written, any upper bound from 129 to 256 draws one byte and clears all
   * of it, so every call returns 0.
   */
  lemma WrittenCollapses(upperBound: int32, stream: seq<byte>)
    requires 129 <= upperBound <= 256 && |stream| >= 1
    ensures Sample(upperBound, stream) == Some(0)
  {
    NumBitsRange(upperBound);
    CandidateValue(upperBound, stream[..1]);
  }

  /** Concretely: for the bound 200 and the draw `[1]`, the code returns 0 where 1 was meant. */
  lemma WrittenCounterexample()
    ensures Sample(200, [1]) == Some(0)
    ensures SampleFixed(200, [1]) == Some(1)
  {
    WrittenCollapses(200, [1]);
    FixedReachesEvery(200, 1);
    var d := DrawFor(200, 1);
    assert d == [d[0]];
    LittleEndianSingle(d[0]);
  }

  /** Above 256 the top byte is lost too: no result reaches `256^(numBytes - 1)`. */
  lemma {:induction false} WrittenDropsTopByte(upperBound: int32, stream: seq<byte>)
    requires upperBound > 128
    requires Sample(upperBound, stream).Some?
    ensures Sample(upperBound, stream).value < Pow2(8 * (NumBytes(NumBits(upperBound)) - 1))
    decreases |stream|
  {
    NumBitsRange(upperBound);
    var numBytes := NumBytes(NumBits(upperBound));
    CandidateValue(upperBound, stream[..numBytes]);
    var v := Candidate(upperBound, stream[..numBytes]);
    if v != 0 && v >= upperBound {
      WrittenDropsTopByte(upperBound, stream[numBytes..]);
    }
  }

  // ---------------------------------------------------------------------------
  // The shift evidently intended

  /** The number of surplus bits in the top byte: `numBytes * 8 - numBits`. */
  function FixedOffset(numBits: nat, numBytes: nat): int {
    numBytes * 8 - numBits
  }

  function CandidateFixed(upperBound: int32, draw: seq<byte>): int32
    requires |draw| == NumBytes(NumBits(upperBound))
  {
    var numBits := NumBits(upperBound);
    CandidateWith(draw, FixedOffset(numBits, NumBytes(numBits)))
  }

  /**
   * Cutting a little-endian value `prefix + w * last` below its top byte's
   * `pk`-th power of two keeps the top byte modulo `pk`.
   */
  lemma TruncateTop(value: nat, modulus: nat, prefix: nat, w: nat, last: nat, pk: nat)
    requires prefix < w && pk >= 1 && value == prefix + w * last && modulus == w * pk
    ensures value % modulus == prefix + w * (last % pk)
  {
    var q, t := last / pk, last % pk;
    ModUnique(last, pk, q, t);
    assert prefix + w * t < w * pk by {
      MulAtLeast(pk - t, w);
      assert w * pk == w * t + (pk - t) * w;
    }
    assert value == q * (w * pk) + (prefix + w * t) by {
      assert w * last == w * (q * pk + t);
    }
    ModUnique(value, w * pk, q, prefix + w * t);
  }

  /** A shift `s` from 1 to 7 keeps the draw's low `8 * (n - 1) + 8 - s` bits. */
  lemma CandidateTruncated(draw: seq<byte>, offset: int, bits: nat)
    requires 1 <= |draw| <= 4 && 1 <= offset <= 7 && bits == 8 * |draw| - offset
    ensures CandidateWith(draw, offset) == LittleEndian(draw) % Pow2(bits)
  {
    var n := |draw|;
    var k := 8 - offset;
    var low, last := draw[..n - 1], draw[n - 1];
    ClearKeepsTopBits(last, offset, k);
    CandidateWithSplit(draw, offset);
    LittleEndianLast(draw);
    LittleEndianBelowTop(draw);
    Pow2Split(8 * (n - 1), k, bits);
    TruncateTop(LittleEndian(draw), Pow2(bits), LittleEndian(low), Pow2(8 * (n - 1)), last, Pow2(k));
  }

  /** A shift from 1 to 7 keeps the low `k == 8 - offset` bits of the byte, which stay below 128. */
  lemma ClearKeepsTopBits(last: byte, offset: int, k: nat)
    requires 1 <= offset <= 7 && k == 8 - offset
    ensures ClearExtraBits(last, offset) == last % Pow2(k) < 128
  {
    assert ShiftCount(offset) == offset;
    ClearKeepsLow(last, offset);
    Pow2Monotone(k, 7);
    Pow2Byte();
  }

  /** The bytes below the top byte read as less than its weight. */
  lemma LittleEndianBelowTop(draw: seq<byte>)
    requires |draw| >= 1
    ensures LittleEndian(draw[..|draw| - 1]) < Pow2(8 * (|draw| - 1))
  {
    assert |draw[..|draw| - 1]| == |draw| - 1;
  }

  /** Without surplus bits a draw is read whole, and it is already below `2^numBits`. */
  lemma CandidateWhole(draw: seq<byte>, numBits: nat)
    requires 1 <= |draw| <= 3 && numBits == 8 * |draw|
    ensures CandidateWith(draw, 0) == LittleEndian(draw) % Pow2(numBits)
  {
    CandidateWithValue(draw, 0);
    ModUnique(LittleEndian(draw), Pow2(numBits), 0, LittleEndian(draw));
  }

  /** With the surplus-bit shift, a draw yields exactly its low `numBits` bits. */
  lemma CandidateFixedValue(upperBound: int32, draw: seq<byte>)
    requires |draw| == NumBytes(NumBits(upperBound))
    ensures CandidateFixed(upperBound, draw) == LittleEndian(draw) % Pow2(NumBits(upperBound))
  {
    var numBits := NumBits(upperBound);
    var offset := FixedOffset(numBits, |draw|);
    if offset == 0 {
      CandidateWhole(draw, numBits);
    } else {
      CandidateTruncated(draw, offset, numBits);
    }
  }

  /** `RandomNumber` with the surplus-bit shift. */
  function SampleFixed(upperBound: int32, stream: seq<byte>): (r: Option<int32>)
    ensures r.Some? ==> 0 <= r.value
    ensures r.Some? && upperBound >= 1 ==> r.value < upperBound
    ensures r.Some? && upperBound <= 1 ==> r.value == 0
    decreases |stream|
  {
    var numBytes := NumBytes(NumBits(upperBound));
    if |stream| < numBytes then None
    else
      var v := CandidateFixed(upperBound, stream[..numBytes]);
      CandidateFixedValue(upperBound, stream[..numBytes]);
      if v != 0 && v >= upperBound then SampleFixed(upperBound, stream[numBytes..])
      else Some(v)
  }

  /** The draw whose little-endian value is `v`. */
  function DrawFor(upperBound: int32, v: nat): (d: seq<byte>)
    requires 1 <= upperBound && v < upperBound
    ensures |d| == NumBytes(NumBits(upperBound)) && LittleEndian(d) == v
  {
    var numBits := NumBits(upperBound);
    Pow2Monotone(numBits, 8 * NumBytes(numBits));
    Encode(v, NumBytes(numBits))
  }

  /** With the surplus-bit shift every value below the bound is returned by the draw that encodes it. */
  lemma FixedReachesEvery(upperBound: int32, v: nat)
    requires 1 <= upperBound && v < upperBound
    ensures SampleFixed(upperBound, DrawFor(upperBound, v)) == Some(v as int32)
  {
    var numBits := NumBits(upperBound);
    var d := DrawFor(upperBound, v);
    assert d[..|d|] == d;
    CandidateFixedValue(upperBound, d);
    ModUnique(v, Pow2(numBits), 0, v);
  }

  /** Up to 128 values a draw is one byte and the written shift is the surplus-bit shift. */
  lemma SmallBoundSameCandidate(upperBound: int32, draw: seq<byte>)
    requires upperBound <= 128 && |draw| == NumBytes(NumBits(upperBound))
    ensures CandidateFixed(upperBound, draw) == Candidate(upperBound, draw) >= 0
  {
    NumBitsRange(upperBound);
    var numBits := NumBits(upperBound);
    assert Offset(numBits, 1) == FixedOffset(numBits, 1);
    CandidateValue(upperBound, draw);
  }

  lemma SampleFixedUnfold(upperBound: int32, stream: seq<byte>)
    requires |stream| >= NumBytes(NumBits(upperBound))
    ensures var draw := stream[..NumBytes(NumBits(upperBound))];
      SampleFixed(upperBound, stream) ==
        if CandidateFixed(upperBound, draw) != 0 && CandidateFixed(upperBound, draw) >= upperBound
        then SampleFixed(upperBound, stream[NumBytes(NumBits(upperBound))..])
        else Some(CandidateFixed(upperBound, draw))
  {
  }

  /** Up to 128 values the written shift is the surplus-bit shift, so the code is right there. */
  lemma {:induction false} FixedAgreesOnSmallBounds(upperBound: int32, stream: seq<byte>)
    requires upperBound <= 128
    ensures SampleFixed(upperBound, stream) == Sample(upperBound, stream)
    decreases |stream|
  {
    var numBytes := NumBytes(NumBits(upperBound));
    if |stream| >= numBytes {
      SmallBoundSameCandidate(upperBound, stream[..numBytes]);
      SampleUnfold(upperBound, stream);
      SampleFixedUnfold(upperBound, stream);
      FixedAgreesOnSmallBounds(upperBound, stream[numBytes..]);
    }
  }
}
