/**
 * Bytes, exceptions and the cryptographic primitives the Fortuna core calls
 * into. SHA-256, one AES-256 block encryption and the 16-byte encoding of the
 * generator counter are library code outside this model: they are carried as
 * total functions about which nothing is known except their output lengths.
 */
module Primitives {

  type byte = b: int | 0 <= b < 256

  /** SHA-256 digests are 32 bytes long. */
  const DigestLength := 32
  /** AES works on 16-byte blocks. */
  const CipherBlockSize := 16

  /** The exceptions the core throws, by .NET type. */
  datatype Error =
    | ArgumentOutOfRange       // ArgumentOutOfRangeException
    | ArgumentNull             // ArgumentNullException
    | Argument                 // ArgumentException (also thrown by an overrunning Array.Copy)
    | InvalidOperation         // InvalidOperationException
    | NullReference            // NullReferenceException
    | OperationCanceled        // OperationCanceledException
    | Fortuna(cause: Error)    // FortunaException wrapping the exception that caused it

  /**
   * `sha256(m)` is the digest of `m`; `aes(key, block)` encrypts one block in
   * ECB mode without padding; `counterBytes(c)` is `GeneratorState.CounterBytes`
   * for counter value `c`, whose encoding is not part of this model.
   */
  datatype Primitives = Primitives(
    sha256: seq<byte> -> seq<byte>,
    aes: (seq<byte>, seq<byte>) -> seq<byte>,
    counterBytes: nat -> seq<byte>)

  ghost predicate ValidPrimitives(p: Primitives) {
    && (forall m :: |p.sha256(m)| == DigestLength)
    && (forall k, b :: |p.aes(k, b)| == CipherBlockSize)
  }

  function Pow2(n: nat): (r: nat)
    ensures r >= 1
  {
    if n == 0 then 1 else 2 * Pow2(n - 1)
  }

  function Zeros(n: nat): (r: seq<byte>)
    ensures |r| == n && forall i :: 0 <= i < n ==> r[i] == 0
  {
    seq(n, _ => 0)
  }

  /** `Array.Resize(ref bytes, n)`: truncate to `n` bytes or pad with zeros up to `n`. */
  function Resize(bytes: seq<byte>, n: nat): (r: seq<byte>)
    ensures |r| == n
    ensures forall i :: 0 <= i < n ==> r[i] == if i < |bytes| then bytes[i] else 0
  {
    if n <= |bytes| then bytes[..n] else bytes + Zeros(n - |bytes|)
  }

  /** `Array.Copy` of all of `src` into `dst` starting at `offset`; the rest of `dst` is kept. */
  method ArrayCopy(src: seq<byte>, dst: array<byte>, offset: nat)
    requires offset + |src| <= dst.Length
    modifies dst
    ensures dst[..] == old(dst[..offset]) + src + old(dst[offset + |src|..])
  {
    forall k | 0 <= k < |src| {
      dst[offset + k] := src[k];
    }
  }

  lemma MulAtLeast(d: int, a: int)
    requires d >= 1 && a > 0
    ensures d * a >= a
  {
    if d > 1 {
      MulAtLeast(d - 1, a);
      assert d * a == (d - 1) * a + a;
    }
  }

  /** Euclidean division is unique: `x == q * a + t` with `0 <= t < a` fixes `x / a` and `x % a`. */
  lemma ModUnique(x: int, a: int, q: int, t: int)
    requires a > 0 && x == q * a + t && 0 <= t < a
    ensures x % a == t && x / a == q
  {
    var q', t' := x / a, x % a;
    assert x == q' * a + t';
    if q > q' {
      MulAtLeast(q - q', a);
    } else if q < q' {
      MulAtLeast(q' - q, a);
    }
  }
}
