/**
 * The Fortuna generator (Generator/FortunaGenerator.cs): AES-256 in counter
 * mode under a 32-byte key, rekeyed after every request from two further
 * counter blocks, and reseeded by hashing the old key with the seed.
 */
module Generator {
  import opened Wrappers
  import opened Primitives

  /** 256-bit cipher key, in bytes. */
  const KeyBlockSize := 32
  /** The fixed 16 KB buffer `GenerateBlocks` writes its blocks into. */
  const StringSize := 16 * 1024
  /**
   * Number of cipher blocks that fit in that buffer. Byte offsets in this
   * module are counted in blocks of `CipherBlockSize` == 16 bytes and written
   * with the literal 16, which keeps their arithmetic linear.
   */
  const MaxBlocks := StringSize / 16
  /** `GenerateBytes` refuses requests of 2^20 bytes or more. */
  const MaxLength := 1048576

  /** `GeneratorState`: the cipher key and the (unbounded) block counter. */
  datatype GenState = GenState(key: seq<byte>, counter: nat)

  /** Zero means "never seeded"; every constructor leaves the counter at 1 or above. */
  predicate Seeded(st: GenState) {
    st.counter >= 1
  }

  /** `GetNewKey`: the first 32 bytes of `bytes`, zero-padded if shorter. */
  function GetNewKey(bytes: seq<byte>): (r: seq<byte>)
    ensures |r| == KeyBlockSize
    ensures |bytes| >= KeyBlockSize ==> r == bytes[..KeyBlockSize]
  {
    Resize(bytes, KeyBlockSize)
  }

  /**
   * The counter-mode key stream: the encryptions of counters
   * `c0, c0 + 1, ..., c0 + n - 1` under `key`, in that order.
   */
  function KeyStream(p: Primitives, key: seq<byte>, c0: nat, n: nat): (r: seq<byte>)
    requires ValidPrimitives(p)
    ensures |r| == 16 * n
  {
    if n == 0 then [] else KeyStream(p, key, c0, n - 1) + p.aes(key, p.counterBytes(c0 + n - 1))
  }

  /** The 16 KB buffer after `n` blocks from counter `c0` were written into it. */
  function Buffer(p: Primitives, key: seq<byte>, c0: nat, n: nat): (r: seq<byte>)
    requires ValidPrimitives(p) && n <= MaxBlocks
    ensures |r| == StringSize
  {
    KeyStream(p, key, c0, n) + Zeros(StringSize - 16 * n)
  }

  /** `Math.Ceiling(length / 16d)`: the number of blocks that cover `length` bytes. */
  function NumBlocks(length: nat): (r: nat)
    ensures 16 * r >= length && 16 * (r - 1) < length
  {
    (length + 15) / 16
  }

  /** The generator built from `seed`: a zero key and zero counter, reseeded once. */
  function Init(p: Primitives, seed: seq<byte>): (r: GenState)
    requires ValidPrimitives(p)
    ensures Seeded(r) && |r.key| == KeyBlockSize
  {
    Reseeded(p, GenState(Zeros(KeyBlockSize), 0), seed)
  }

  /** `Reseed`: the new key is the digest of the old key followed by the seed; the counter steps by one. */
  function Reseeded(p: Primitives, st: GenState, seed: seq<byte>): (r: GenState)
    requires ValidPrimitives(p)
    ensures r.key == p.sha256(st.key + seed) && r.counter == st.counter + 1
  {
    GenState(GetNewKey(p.sha256(st.key + seed)), st.counter + 1)
  }

  /**
   * `GenerateBlocks(numBlocks)` as written: an unseeded generator throws;
   * otherwise the blocks are written into a zeroed 16 KB buffer, and a request
   * for more than 1024 blocks overruns it, so the 1025th `Array.Copy` throws
   * after 1024 counters were spent.
   */
  function Blocks(p: Primitives, st: GenState, numBlocks: nat): (r: (Result<seq<byte>, Error>, GenState))
    requires ValidPrimitives(p)
    ensures r.0.Success? ==> |r.0.value| == StringSize
    ensures r.1.key == st.key && r.1.counter >= st.counter
  {
    if st.counter == 0 then (Failure(InvalidOperation), st)
    else if numBlocks <= MaxBlocks then
      (Success(Buffer(p, st.key, st.counter, numBlocks)),
       st.(counter := st.counter + numBlocks))
    else (Failure(Argument), st.(counter := st.counter + MaxBlocks))
  }

  /**
   * `GenerateBytes` for a buffer of `length` bytes, as written: the output is
   * the first `length` bytes of the block buffer, and the key is then replaced
   * by two further blocks. A failure leaves the key as it was.
   */
  function Bytes(p: Primitives, st: GenState, length: nat): (r: (Result<seq<byte>, Error>, GenState))
    requires ValidPrimitives(p)
    ensures r.0.Success? ==> |r.0.value| == length && |r.1.key| == KeyBlockSize
    ensures r.0.Failure? ==> r.1.key == st.key
  {
    if length >= MaxLength then (Failure(InvalidOperation), st)
    else
      var (blocks, afterOutput) := Blocks(p, st, NumBlocks(length));
      if blocks.Failure? then (Failure(blocks.error), afterOutput)
      else
        var (keyBlocks, afterRekey) := Blocks(p, afterOutput, 2);
        (Success(blocks.value[..length]), afterRekey.(key := GetNewKey(keyBlocks.value)))
  }

  /** A successful `Bytes` is the prefix of the output blocks, then a rekey from two more blocks. */
  lemma BytesUnfold(p: Primitives, st: GenState, length: nat)
    requires ValidPrimitives(p) && length < MaxLength
    requires Blocks(p, st, NumBlocks(length)).0.Success?
    ensures var (blocks, afterOutput) := Blocks(p, st, NumBlocks(length));
      && length <= |blocks.value|
      && Blocks(p, afterOutput, 2).0.Success?
      && Bytes(p, st, length)
         == (Success(blocks.value[..length]), Blocks(p, afterOutput, 2).1.(key := GetNewKey(Blocks(p, afterOutput, 2).0.value)))
  {
  }

  // ---------------------------------------------------------------------------
  // The key stream

  /** Block `i` of the stream is the encryption of counter `c0 + i`. */
  lemma {:induction false} KeyStreamBlock(p: Primitives, key: seq<byte>, c0: nat, n: nat, i: nat)
    requires ValidPrimitives(p) && i < n
    ensures KeyStream(p, key, c0, n)[16 * i..16 * (i + 1)]
         == p.aes(key, p.counterBytes(c0 + i))
  {
    if i < n - 1 {
      KeyStreamBlock(p, key, c0, n - 1, i);
      assert KeyStream(p, key, c0, n)[..16 * (n - 1)] == KeyStream(p, key, c0, n - 1);
    }
  }

  /** Byte `j` of the stream is byte `j % 16` of the block for counter `c0 + j / 16`. */
  lemma KeyStreamByte(p: Primitives, key: seq<byte>, c0: nat, n: nat, j: nat)
    requires ValidPrimitives(p) && j < 16 * n
    ensures KeyStream(p, key, c0, n)[j] == p.aes(key, p.counterBytes(c0 + j / 16))[j % 16]
  {
    var i := j / 16;
    KeyStreamBlock(p, key, c0, n, i);
    assert KeyStream(p, key, c0, n)[j] == KeyStream(p, key, c0, n)[16 * i..16 * (i + 1)][j % 16];
  }

  /** Two blocks of the stream are the encryptions of the first two counters. */
  lemma KeyStreamTwo(p: Primitives, key: seq<byte>, c0: nat)
    requires ValidPrimitives(p)
    ensures KeyStream(p, key, c0, 2) == p.aes(key, p.counterBytes(c0)) + p.aes(key, p.counterBytes(c0 + 1))
  {
    assert KeyStream(p, key, c0, 1) == p.aes(key, p.counterBytes(c0));
  }

  /** A shorter stream from the same key and counter is a prefix of a longer one. */
  lemma {:induction false} KeyStreamPrefix(p: Primitives, key: seq<byte>, c0: nat, m: nat, n: nat)
    requires ValidPrimitives(p) && m <= n
    ensures KeyStream(p, key, c0, n)[..16 * m] == KeyStream(p, key, c0, m)
  {
    if m < n {
      KeyStreamPrefix(p, key, c0, m, n - 1);
      assert KeyStream(p, key, c0, n)[..16 * (n - 1)] == KeyStream(p, key, c0, n - 1);
    }
  }

  /** Running the counter on: `n + m` blocks are `n` blocks and then `m` blocks from counter `c0 + n`. */
  lemma {:induction false} KeyStreamAppend(p: Primitives, key: seq<byte>, c0: nat, n: nat, m: nat)
    requires ValidPrimitives(p)
    ensures KeyStream(p, key, c0, n + m) == KeyStream(p, key, c0, n) + KeyStream(p, key, c0 + n, m)
  {
    if m > 0 {
      KeyStreamAppend(p, key, c0, n, m - 1);
    }
  }

  // ---------------------------------------------------------------------------
  // GenerateBytes

  /**
   * When `GenerateBytes` succeeds and when it throws which exception: it
   * succeeds exactly on a seeded generator and a request of at most 16 KB;
   * an unseeded generator or a request of 2^20 bytes or more is an
   * InvalidOperationException; anything in between overruns the buffer.
   */
  lemma BytesOutcome(p: Primitives, st: GenState, length: nat)
    requires ValidPrimitives(p)
    ensures Bytes(p, st, length).0.Success? <==> Seeded(st) && length <= StringSize
    ensures !Seeded(st) || length >= MaxLength ==> Bytes(p, st, length) == (Failure(InvalidOperation), st)
    ensures Seeded(st) && StringSize < length < MaxLength ==>
      Bytes(p, st, length) == (Failure(Argument), st.(counter := st.counter + MaxBlocks))
  {
    if Seeded(st) && length < MaxLength {
      var nb := NumBlocks(length);
      assert nb <= MaxBlocks <==> length <= StringSize;
    }
  }

  /**
   * What a successful request returns and leaves behind: the output is the
   * key stream from the current counter cut to the requested length, the new
   * key is the next two blocks of the stream, and the counter moves past
   * every block used.
   */
  lemma BytesSuccess(p: Primitives, st: GenState, length: nat)
    requires ValidPrimitives(p) && Bytes(p, st, length).0.Success?
    ensures var nb := NumBlocks(length);
      && 16 * nb >= length
      && Bytes(p, st, length).0.value == KeyStream(p, st.key, st.counter, nb)[..length]
      && Bytes(p, st, length).1 == GenState(KeyStream(p, st.key, st.counter + nb, 2), st.counter + nb + 2)
  {
    BytesOutcome(p, st, length);
    var nb := NumBlocks(length);
    var (blocks, afterOutput) := Blocks(p, st, nb);
    assert blocks.value == KeyStream(p, st.key, st.counter, nb) + Zeros(StringSize - 16 * nb);
    assert blocks.value[..length] == KeyStream(p, st.key, st.counter, nb)[..length];
    var keyStream := KeyStream(p, st.key, st.counter + nb, 2);
    assert Blocks(p, afterOutput, 2).0.value == keyStream + Zeros(StringSize - 16 * 2);
    assert GetNewKey(keyStream + Zeros(StringSize - 16 * 2)) == keyStream;
  }

  /** Output byte `j` is byte `j % 16` of the encryption of counter `c + j / 16`. */
  lemma BytesByte(p: Primitives, st: GenState, length: nat)
    requires ValidPrimitives(p) && Bytes(p, st, length).0.Success?
    ensures forall j :: 0 <= j < length ==>
      Bytes(p, st, length).0.value[j] == p.aes(st.key, p.counterBytes(st.counter + j / 16))[j % 16]
  {
    forall j | 0 <= j < length
      ensures Bytes(p, st, length).0.value[j] == p.aes(st.key, p.counterBytes(st.counter + j / 16))[j % 16]
    {
      BytesByteAt(p, st, length, j);
    }
  }

  lemma BytesByteAt(p: Primitives, st: GenState, length: nat, j: nat)
    requires ValidPrimitives(p) && Bytes(p, st, length).0.Success? && j < length
    ensures Bytes(p, st, length).0.value[j] == p.aes(st.key, p.counterBytes(st.counter + j / 16))[j % 16]
  {
    BytesSuccess(p, st, length);
    KeyStreamByte(p, st.key, st.counter, NumBlocks(length), j);
  }

  /**
   * The new key after a successful request is the encryptions of the two
   * counters after the output blocks, which never appear in the output.
   */
  lemma BytesKey(p: Primitives, st: GenState, length: nat)
    requires ValidPrimitives(p) && Bytes(p, st, length).0.Success?
    ensures var nb := NumBlocks(length);
      Bytes(p, st, length).1.key
        == p.aes(st.key, p.counterBytes(st.counter + nb)) + p.aes(st.key, p.counterBytes(st.counter + nb + 1))
  {
    BytesSuccess(p, st, length);
    KeyStreamTwo(p, st.key, st.counter + NumBlocks(length));
  }

  /** The first `short` bytes of the stream that covers `long` bytes are those of the stream that covers `short`. */
  lemma OutputPrefix(p: Primitives, key: seq<byte>, c0: nat, short: nat, long: nat)
    requires ValidPrimitives(p) && short <= long
    ensures KeyStream(p, key, c0, NumBlocks(long))[..long][..short] == KeyStream(p, key, c0, NumBlocks(short))[..short]
  {
    var ns, nl := NumBlocks(short), NumBlocks(long);
    var stream := KeyStream(p, key, c0, nl);
    KeyStreamPrefix(p, key, c0, ns, nl);
    assert stream[..16 * ns][..short] == stream[..short];
  }

  /**
   * Two requests from the same state agree on their common length: the
   * shorter output is a prefix of the longer one.
   */
  lemma BytesPrefix(p: Primitives, st: GenState, short: nat, long: nat)
    requires ValidPrimitives(p) && short <= long && Bytes(p, st, long).0.Success?
    ensures Bytes(p, st, short).0.Success?
    ensures Bytes(p, st, short).0.value == Bytes(p, st, long).0.value[..short]
  {
    BytesOutcome(p, st, long);
    BytesOutcome(p, st, short);
    BytesSuccess(p, st, short);
    BytesSuccess(p, st, long);
    OutputPrefix(p, st.key, st.counter, short, long);
  }

  /**
   * A generator built from a seed is a function of that seed alone: its first
   * output is the key stream from counter 1 under the digest of 32 zero bytes
   * followed by the seed.
   */
  lemma SeededOutput(p: Primitives, seed: seq<byte>, length: nat)
    requires ValidPrimitives(p) && length <= StringSize
    ensures Bytes(p, Init(p, seed), length).0.Success?
    ensures Bytes(p, Init(p, seed), length).0.value
         == KeyStream(p, p.sha256(Zeros(KeyBlockSize) + seed), 1, NumBlocks(length))[..length]
  {
    BytesOutcome(p, Init(p, seed), length);
    BytesSuccess(p, Init(p, seed), length);
  }

  /** Reseeding any generator, even one never seeded, makes it seeded. */
  lemma ReseedSeeds(p: Primitives, st: GenState, seed: seq<byte>)
    requires ValidPrimitives(p)
    ensures Seeded(Reseeded(p, st, seed))
    ensures Blocks(p, Reseeded(p, st, seed), 2).0.Success?
  {
  }

  // ---------------------------------------------------------------------------
  // The 16 KB buffer

  /**
   * As written, a request one byte past the 16 KB buffer is refused although
   * it is far below the 2^20-byte limit that `GenerateBytes` checks.
   */
  lemma OversizedRequestFails(p: Primitives, st: GenState)
    requires ValidPrimitives(p) && Seeded(st)
    ensures StringSize + 1 < MaxLength
    ensures Bytes(p, st, StringSize + 1).0 == Failure(Argument)
  {
    BytesOutcome(p, st, StringSize + 1);
  }

  /** `GenerateBlocks` with a buffer sized to the request, so nothing overruns. */
  function BlocksSized(p: Primitives, st: GenState, numBlocks: nat): (r: (Result<seq<byte>, Error>, GenState))
    requires ValidPrimitives(p)
    ensures r.0.Success? ==> |r.0.value| == 16 * numBlocks
    ensures r.1.key == st.key
  {
    if st.counter == 0 then (Failure(InvalidOperation), st)
    else (Success(KeyStream(p, st.key, st.counter, numBlocks)), st.(counter := st.counter + numBlocks))
  }

  /** `GenerateBytes` over `BlocksSized`: the limit it checks is the only limit. */
  function BytesSized(p: Primitives, st: GenState, length: nat): (r: (Result<seq<byte>, Error>, GenState))
    requires ValidPrimitives(p)
  {
    if length >= MaxLength then (Failure(InvalidOperation), st)
    else
      var (blocks, afterOutput) := BlocksSized(p, st, NumBlocks(length));
      if blocks.Failure? then (Failure(blocks.error), afterOutput)
      else
        var (keyBlocks, afterRekey) := BlocksSized(p, afterOutput, 2);
        (Success(blocks.value[..length]), afterRekey.(key := GetNewKey(keyBlocks.value)))
  }

  /**
   * With the buffer sized to the request, every request below 2^20 bytes from
   * a seeded generator succeeds, and the sized generator agrees with the
   * written one wherever the written one succeeds.
   */
  lemma BytesSizedOutcome(p: Primitives, st: GenState, length: nat)
    requires ValidPrimitives(p)
    ensures BytesSized(p, st, length).0.Success? <==> Seeded(st) && length < MaxLength
    ensures BytesSized(p, st, length).0.Success? ==>
      BytesSized(p, st, length).0.value == KeyStream(p, st.key, st.counter, NumBlocks(length))[..length]
    ensures Bytes(p, st, length).0.Success? ==> BytesSized(p, st, length) == Bytes(p, st, length)
  {
    if Seeded(st) && length < MaxLength {
      var nb := NumBlocks(length);
      var keyStream := KeyStream(p, st.key, st.counter + nb, 2);
      assert GetNewKey(keyStream) == keyStream;
      if Bytes(p, st, length).0.Success? {
        BytesSuccess(p, st, length);
      }
    }
  }

  // ---------------------------------------------------------------------------
  // The generator object

  class FortunaGenerator {
    const crypto: Primitives
    var key: seq<byte>
    var counter: nat

    /** The primitives and a 32-byte key; what `GenerateBlocks` needs, seeded or not. */
    ghost predicate Keyed()
      reads this
    {
      ValidPrimitives(crypto) && |key| == KeyBlockSize
    }

    /** Every constructed generator has been reseeded once, so its counter is never 0. */
    ghost predicate Valid()
      reads this
    {
      Keyed() && Seeded(State())
    }

    function State(): GenState
      reads this
    {
      GenState(key, counter)
    }

    /**
     * `new FortunaGenerator(seed)`; without a seed the bytes of
     * `Environment.TickCount` are used, and those are a parameter here.
     */
    constructor (crypto: Primitives, seed: Option<seq<byte>>, tickCountBytes: seq<byte>)
      requires ValidPrimitives(crypto)
      ensures Valid() && this.crypto == crypto
      ensures State() == Init(crypto, if seed.Some? then seed.value else tickCountBytes)
    {
      this.crypto := crypto;
      key := Zeros(KeyBlockSize);
      counter := 0;
      new;
      var initial := if seed.Some? then seed.value else tickCountBytes;
      Reseed(initial);
    }

    method Reseed(seed: seq<byte>)
      requires ValidPrimitives(crypto)
      modifies this
      ensures Valid()
      ensures State() == Reseeded(crypto, old(State()), seed)
    {
      var newKey := GetNewKey(crypto.sha256(key + seed));
      counter := counter + 1;
      key := newKey;
    }

    method GenerateBlocks(numBlocks: nat) returns (r: Result<seq<byte>, Error>)
      requires Keyed()
      modifies this
      ensures Keyed()
      ensures (r, State()) == Blocks(crypto, old(State()), numBlocks)
    {
      if counter == 0 {
        return Failure(InvalidOperation);
      }
      var randomString := new byte[StringSize](_ => 0);
      var overrun := FillBlocks(numBlocks, randomString);
      r := if overrun then Failure(Argument) else Success(randomString[..]);
    }

    /** The loop of `GenerateBlocks`: one encrypted counter per block, stored in order. */
    method FillBlocks(numBlocks: nat, randomString: array<byte>) returns (overrun: bool)
      requires Keyed() && randomString.Length == StringSize && randomString[..] == Zeros(StringSize)
      modifies this`counter, randomString
      ensures overrun <==> numBlocks > MaxBlocks
      ensures counter == old(counter) + (if overrun then MaxBlocks else numBlocks)
      ensures !overrun ==> numBlocks <= MaxBlocks && randomString[..] == Buffer(crypto, key, old(counter), numBlocks)
    {
      assert randomString[..] == Buffer(crypto, key, counter, 0);
      var numBytes := numBlocks * 16;
      var i := 0;
      ghost var done := 0;
      while i < numBytes
        invariant i == 16 * done && done <= numBlocks && i <= StringSize
        invariant counter == old(counter) + done
        invariant randomString[..] == Buffer(crypto, key, old(counter), done)
      {
        var counterBytes := crypto.counterBytes(counter);
        var cryptedBytes := crypto.aes(key, counterBytes);
        if i + 16 > StringSize {
          return true;
        }
        StoreBlock(old(counter), done, cryptedBytes, randomString, i);
        i := i + 16;
        done := done + 1;
      }
      assert done == numBlocks;
      overrun := false;
    }

    method StoreBlock(ghost c0: nat, ghost done: nat, block: seq<byte>, randomString: array<byte>, i: nat)
      requires Keyed() && counter == c0 + done && block == crypto.aes(key, crypto.counterBytes(counter))
      requires i == 16 * done && i + 16 <= StringSize == randomString.Length
      requires randomString[..] == Buffer(crypto, key, c0, done)
      modifies this`counter, randomString
      ensures counter == c0 + done + 1
      ensures randomString[..] == Buffer(crypto, key, c0, done + 1)
    {
      ghost var written := KeyStream(crypto, key, c0, done);
      AppendBlock(written, block, randomString, i);
      assert KeyStream(crypto, key, c0, done + 1) == written + block;
      counter := counter + 1;
    }

    /** `Array.Copy` of one encrypted block to the end of what the buffer holds so far. */
    static method AppendBlock(ghost written: seq<byte>, block: seq<byte>, buffer: array<byte>, at: nat)
      requires at == |written| && at + |block| <= buffer.Length
      requires buffer[..] == written + Zeros(buffer.Length - |written|)
      modifies buffer
      ensures buffer[..] == written + block + Zeros(buffer.Length - |written| - |block|)
    {
      ArrayCopy(block, buffer, at);
      assert buffer[..] == written + block + Zeros(buffer.Length - |written| - |block|) by {
        assert old(buffer[..])[..|written|] == written;
        assert old(buffer[..])[|written| + |block|..] == Zeros(buffer.Length - |written| - |block|);
      }
    }

    /** Fills `data` with output and rekeys; on an exception `data` is left untouched. */
    method GenerateBytes(data: array<byte>) returns (outcome: Outcome<Error>)
      requires Valid()
      modifies this, data
      ensures Valid()
      ensures outcome == Bytes(crypto, old(State()), data.Length).0.ToOutcome()
      ensures State() == Bytes(crypto, old(State()), data.Length).1
      ensures data[..] == Bytes(crypto, old(State()), data.Length).0.GetOr(old(data[..]))
    {
      if data.Length >= MaxLength {
        return Fail(InvalidOperation);
      }
      ghost var before := State();
      var randomData := GenerateBlocks(NumBlocks(data.Length));
      if randomData.Failure? {
        return Fail(randomData.error);
      }
      BytesUnfold(crypto, before, data.Length);
      ArrayCopy(randomData.value[..data.Length], data, 0);
      assert data[..] == randomData.value[..data.Length];
      var keyBlocks := GenerateBlocks(2);
      key := GetNewKey(keyBlocks.value);
      outcome := Pass;
    }
  }

  /**
   * Two generators built from the same seed produce the same first output,
   * whatever the clock reads.
   */
  method SameSeedSameData(crypto: Primitives, seed: seq<byte>, length: nat, ticksA: seq<byte>, ticksB: seq<byte>)
    returns (first: seq<byte>, second: seq<byte>)
    requires ValidPrimitives(crypto) && length <= StringSize
    ensures first == second && |first| == length
  {
    var a := new FortunaGenerator(crypto, Some(seed), ticksA);
    var dataA := new byte[length](_ => 0);
    var outcomeA := a.GenerateBytes(dataA);
    var b := new FortunaGenerator(crypto, Some(seed), ticksB);
    var dataB := new byte[length](_ => 0);
    var outcomeB := b.GenerateBytes(dataB);
    SeededOutput(crypto, seed, length);
    first, second := dataA[..], dataB[..];
  }
}
