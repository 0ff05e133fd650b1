/**
 * One Fortuna entropy pool (Accumulator/Pool.cs): the digest of the most
 * recent event added to it and a running count of the bytes it was fed.
 */
module EntropyPool {
  import opened Wrappers
  import opened Primitives

  /** Largest event payload `AddEventData` accepts. */
  const MaxEventLength := 32
  /** Source identifiers must fit in one byte. */
  const MaxSource := 255

  /** A pool as a value: the latest digest (null until the first event) and the size counter. */
  datatype PoolState = PoolState(hash: Option<seq<byte>>, size: int)

  const EmptyPool := PoolState(None, 0)

  /** The bytes hashed for one event: source id, payload length, payload. */
  function EventRecord(source: int, data: seq<byte>): seq<byte>
    requires 0 <= source <= MaxSource && |data| <= MaxEventLength
  {
    [source as byte, |data| as byte] + data
  }

  /**
   * `AddEventData` on a pool value. An oversized payload or a source id
   * outside one byte is rejected and the pool is left as it was; otherwise the
   * digest is replaced by the digest of this event alone and the size grows by
   * the number of hashed bytes.
   */
  function AddEvent(p: Primitives, pool: PoolState, source: int, data: seq<byte>): (r: Result<PoolState, Error>)
    ensures r.Failure? <==> |data| > MaxEventLength || source < 0 || source > MaxSource
    ensures r.Failure? ==> r.error == ArgumentOutOfRange
    ensures r.Success? ==> r.value.size == pool.size + |data| + 2
    ensures r.Success? ==> r.value.hash == Some(p.sha256([source as byte, |data| as byte] + data))
  {
    if |data| > MaxEventLength then Failure(ArgumentOutOfRange)
    else if source < 0 || source > MaxSource then Failure(ArgumentOutOfRange)
    else
      var hashData := EventRecord(source, data);
      Success(PoolState(Some(p.sha256(hashData)), pool.size + |hashData|))
  }

  /** `ReadFromPool` on a pool value: the digest it returns and the pool afterwards. */
  function Read(pool: PoolState): (r: (Option<seq<byte>>, PoolState))
    ensures r.0 == pool.hash && r.1.hash == pool.hash && r.1.size == 0
  {
    (pool.hash, pool.(size := 0))
  }

  /** Whatever a pool held before, a successful add leaves the same digest: history plays no part. */
  lemma AddEventForgetsHistory(p: Primitives, a: PoolState, b: PoolState, source: int, data: seq<byte>)
    requires AddEvent(p, a, source, data).Success?
    ensures AddEvent(p, b, source, data).Success?
    ensures AddEvent(p, a, source, data).value.hash == AddEvent(p, b, source, data).value.hash
  {
  }

  /** Reading drains only the size: a second read returns the same digest and leaves the pool as the first did. */
  lemma ReadTwice(pool: PoolState)
    ensures Read(Read(pool).1) == (pool.hash, Read(pool).1)
  {
  }

  /** A pool object; `AddEventData` overwrites its digest and `ReadFromPool` zeroes its size in place. */
  class Pool {
    const crypto: Primitives
    var hash: Option<seq<byte>>
    var runningSize: int

    /** The size never goes negative and every digest is a full SHA-256 digest. */
    ghost predicate Valid()
      reads this
    {
      && ValidPrimitives(crypto)
      && runningSize >= 0
      && (hash.Some? ==> |hash.value| == DigestLength)
    }

    function State(): PoolState
      reads this
    {
      PoolState(hash, runningSize)
    }

    constructor (crypto: Primitives)
      requires ValidPrimitives(crypto)
      ensures Valid() && this.crypto == crypto
      ensures State() == EmptyPool
    {
      this.crypto := crypto;
      hash := None;
      runningSize := 0;
    }

    method AddEventData(source: int, data: seq<byte>) returns (outcome: Outcome<Error>)
      requires Valid()
      modifies this
      ensures Valid()
      ensures outcome == AddEvent(crypto, old(State()), source, data).ToOutcome()
      ensures State() == AddEvent(crypto, old(State()), source, data).GetOr(old(State()))
    {
      if |data| > MaxEventLength {
        return Fail(ArgumentOutOfRange);
      }
      if source < 0 || source > MaxSource {
        return Fail(ArgumentOutOfRange);
      }
      var hashData := EventRecord(source, data);
      hash := Some(crypto.sha256(hashData));
      runningSize := runningSize + |hashData|;
      outcome := Pass;
    }

    method ReadFromPool() returns (h: Option<seq<byte>>)
      requires Valid()
      modifies this
      ensures Valid()
      ensures (h, State()) == Read(old(State()))
    {
      runningSize := 0;
      h := hash;
    }
  }
}
