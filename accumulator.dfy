/**
 * The Fortuna entropy accumulator (Accumulator/FortunaAccumulator.cs): 32
 * pools fed round-robin, readiness gated on pool 0 alone, and a reseed value
 * drawn from the pools on a power-of-two schedule.
 */
module Accumulator {
  import opened Wrappers
  import opened Primitives
  import opened EntropyPool

  const NumberOfPools := 32
  const MinEntropyPoolSize := 64
  const MaxNumberOfSources := 255
  /** Every reseed value is this long, whatever number of pools it drains. */
  const MaxSeedSize := NumberOfPools * DigestLength

  /** The accumulator as a value: its pools, the event counter and the reseed-request counter. */
  datatype AccState = AccState(pools: seq<PoolState>, runningCount: nat, requestCount: nat)

  /** An entropy event as the scheduler delivers it. */
  datatype EntropyEvent = EntropyEvent(source: int, data: seq<byte>)

  /** 32 pools, none with a negative size, every digest a full SHA-256 digest. */
  ghost predicate WellFormed(st: AccState) {
    && |st.pools| == NumberOfPools
    && forall i :: 0 <= i < |st.pools| ==>
         && st.pools[i].size >= 0
         && (st.pools[i].hash.Some? ==> |st.pools[i].hash.value| == DigestLength)
  }

  /** Freshly constructed: empty pools, both counters at zero. */
  function Initial(): (st: AccState)
    ensures WellFormed(st)
  {
    AccState(seq(NumberOfPools, _ => EmptyPool), 0, 0)
  }

  /** `HasEnoughEntropy`: pool 0 alone has been fed more than 64 bytes since it was last drained. */
  predicate EnoughEntropy(st: AccState)
    requires |st.pools| == NumberOfPools
  {
    st.pools[0].size > MinEntropyPoolSize
  }

  // ---------------------------------------------------------------------------
  // AccumulateEntropy
  // ---------------------------------------------------------------------------

  /**
   * `AccumulateEntropy` on a value: the event counter is taken and bumped
   * first, then the event goes to pool `counter mod 32`; a rejected event still
   * uses up its turn.
   */
  function Deliver(p: Primitives, st: AccState, e: EntropyEvent): (r: (Outcome<Error>, AccState))
    requires |st.pools| == NumberOfPools
    ensures |r.1.pools| == NumberOfPools
  {
    var i := st.runningCount % NumberOfPools;
    var added := AddEvent(p, st.pools[i], e.source, e.data);
    (added.ToOutcome(), st.(pools := st.pools[i := added.GetOr(st.pools[i])], runningCount := st.runningCount + 1))
  }

  /** The accumulator after the scheduler has delivered `events` in order. */
  function DeliverAll(p: Primitives, st: AccState, events: seq<EntropyEvent>): (r: AccState)
    requires |st.pools| == NumberOfPools
    ensures |r.pools| == NumberOfPools
  {
    if events == [] then st
    else Deliver(p, DeliverAll(p, st, events[..|events| - 1]), events[|events| - 1]).1
  }

  /** Delivering two runs of events one after the other is delivering them joined. */
  lemma {:induction false} DeliverAllAppend(p: Primitives, st: AccState, first: seq<EntropyEvent>, second: seq<EntropyEvent>)
    requires |st.pools| == NumberOfPools
    ensures DeliverAll(p, st, first + second) == DeliverAll(p, DeliverAll(p, st, first), second)
    decreases |second|
  {
    if second == [] {
      assert first + second == first;
    } else {
      var n := |second| - 1;
      assert (first + second)[..|first + second| - 1] == first + second[..n];
      DeliverAllAppend(p, st, first, second[..n]);
    }
  }

  /** Pool `i` after it has been offered, in order, exactly the events of `events` whose turn is `i`. */
  function PoolAfter(p: Primitives, pool: PoolState, events: seq<EntropyEvent>, start: nat, i: nat): PoolState
  {
    if events == [] then pool
    else
      var n := |events| - 1;
      var before := PoolAfter(p, pool, events[..n], start, i);
      if (start + n) % NumberOfPools == i
      then AddEvent(p, before, events[n].source, events[n].data).GetOr(before)
      else before
  }

  /**
   * Round-robin routing: event number `start + k` goes to pool
   * `(start + k) mod 32` whatever its source, so each pool sees exactly the
   * events whose turn it is and the event counter advances once per event.
   */
  lemma {:induction false} RoundRobin(p: Primitives, st: AccState, events: seq<EntropyEvent>, i: nat)
    requires |st.pools| == NumberOfPools && i < NumberOfPools
    ensures DeliverAll(p, st, events).runningCount == st.runningCount + |events|
    ensures DeliverAll(p, st, events).requestCount == st.requestCount
    ensures DeliverAll(p, st, events).pools[i] == PoolAfter(p, st.pools[i], events, st.runningCount, i)
  {
    if events != [] {
      RoundRobin(p, st, events[..|events| - 1], i);
    }
  }

  // ---------------------------------------------------------------------------
  // GetRandomDataFromPools
  // ---------------------------------------------------------------------------

  /** The number of pools the drain loop visits, counting from pool `i`: it stops at the first `i` with `r mod 2^i != 0`. */
  function DrainCountFrom(r: nat, i: nat): (k: nat)
    requires i <= NumberOfPools
    ensures i <= k <= NumberOfPools
    decreases NumberOfPools - i
  {
    if i == NumberOfPools || r % Pow2(i) != 0 then i else DrainCountFrom(r, i + 1)
  }

  /** The number of pools drained by request number `r` (0-based). */
  function DrainCount(r: nat): (k: nat)
    ensures 1 <= k <= NumberOfPools
  {
    DrainCountFrom(r, 0)
  }

  /** The first of pools `0..k-1` whose digest is still null, or `k` when there is none. */
  function FirstNull(pools: seq<PoolState>, k: nat): (j: nat)
    requires k <= |pools|
    ensures j <= k
    ensures forall i :: 0 <= i < j ==> pools[i].hash.Some?
    ensures j < k ==> pools[j].hash.None?
  {
    if k == 0 then 0
    else
      var j := FirstNull(pools, k - 1);
      if j < k - 1 || pools[k - 1].hash.None? then j else k
  }

  /** The pools after `ReadFromPool` was called on pools `0..m-1`. */
  function DrainSizes(pools: seq<PoolState>, m: nat): (r: seq<PoolState>)
    ensures |r| == |pools|
    ensures forall i :: 0 <= i < |pools| ==> r[i] == if i < m then Read(pools[i]).1 else pools[i]
  {
    seq(|pools|, i requires 0 <= i < |pools| => if i < m then Read(pools[i]).1 else pools[i])
  }

  /** The digests of pools `0..k-1`, back to back. */
  function Digests(pools: seq<PoolState>, k: nat): (r: seq<byte>)
    requires k <= |pools|
    requires forall i :: 0 <= i < k ==> pools[i].hash.Some? && |pools[i].hash.value| == DigestLength
    ensures |r| == DigestLength * k
  {
    if k == 0 then [] else Digests(pools, k - 1) + pools[k - 1].hash.value
  }

  /**
   * `GetRandomDataFromPools` on a value. Without enough entropy it throws and
   * changes nothing. Otherwise the request counter is bumped and the pools
   * are drained for the request number it had.
   */
  function GetRandomData(st: AccState): (r: (Result<seq<byte>, Error>, AccState))
    requires WellFormed(st)
    ensures WellFormed(r.1)
    ensures r.1.runningCount == st.runningCount
  {
    if !EnoughEntropy(st) then (Failure(InvalidOperation), st)
    else
      var (data, pools) := Drain(st.pools, st.requestCount);
      (data, st.(requestCount := st.requestCount + 1, pools := pools))
  }

  /** Thirty-two pools, each digest 32 bytes long. */
  ghost predicate Hashed(pools: seq<PoolState>) {
    && |pools| == NumberOfPools
    && forall i :: 0 <= i < |pools| ==> pools[i].hash.Some? ==> |pools[i].hash.value| == DigestLength
  }

  /**
   * The loop of `GetRandomDataFromPools` for request number `r`: pools
   * `0..DrainCount(r)-1` are read in order into a zeroed 1024-byte buffer. A
   * drained pool that has never accepted an event has a null digest, and
   * copying it throws after that pool's size was already reset.
   */
  function Drain(pools: seq<PoolState>, r: nat): (Result<seq<byte>, Error>, seq<PoolState>)
    requires Hashed(pools)
  {
    var k := DrainCount(r);
    var j := FirstNull(pools, k);
    if j < k then (Failure(NullReference), DrainSizes(pools, j + 1))
    else (Success(Digests(pools, k) + Zeros(MaxSeedSize - DigestLength * k)), DrainSizes(pools, k))
  }

  lemma DrainHitsNull(pools: seq<PoolState>, r: nat, j: nat)
    requires Hashed(pools)
    requires j < DrainCount(r)
    requires forall i :: 0 <= i < j ==> pools[i].hash.Some?
    requires pools[j].hash.None?
    ensures Drain(pools, r) == (Failure(NullReference), DrainSizes(pools, j + 1))
  {
    assert FirstNull(pools, DrainCount(r)) == j;
  }

  lemma DrainDrains(pools: seq<PoolState>, r: nat, k: nat)
    requires Hashed(pools)
    requires k == DrainCount(r)
    requires forall i :: 0 <= i < k ==> pools[i].hash.Some?
    ensures Drain(pools, r) == (Success(Filled(pools, k)), DrainSizes(pools, k))
  {
    assert FirstNull(pools, k) == k;
  }

  /** The buffer once the digests of pools `0..k-1` have been copied into it. */
  function Filled(pools: seq<PoolState>, k: nat): (r: seq<byte>)
    requires k <= NumberOfPools <= |pools|
    requires forall i :: 0 <= i < k ==> pools[i].hash.Some? && |pools[i].hash.value| == DigestLength
    ensures |r| == MaxSeedSize
  {
    Digests(pools, k) + Zeros(MaxSeedSize - DigestLength * k)
  }

  /** What holds at the head of the drain loop after `k` pools have been read. */
  ghost predicate Draining(pools: seq<PoolState>, r: nat, k: nat) {
    && Hashed(pools) && k <= NumberOfPools
    && DrainCountFrom(r, k) == DrainCount(r)
    && forall i :: 0 <= i < k ==> pools[i].hash.Some?
  }

  lemma DrainStart(pools: seq<PoolState>, r: nat)
    requires Hashed(pools)
    ensures Draining(pools, r, 0) && Filled(pools, 0) == Zeros(MaxSeedSize)
  {
  }

  lemma DrainContinues(pools: seq<PoolState>, r: nat, k: nat)
    requires Draining(pools, r, k) && k < NumberOfPools && r % Pow2(k) == 0 && pools[k].hash.Some?
    ensures Draining(pools, r, k + 1)
  {
  }

  /** Reading pool `k` after pools `0..k-1` have been read leaves pools `0..k` read. */
  lemma DrainSizesStep(pools: seq<PoolState>, k: nat)
    requires k < |pools|
    ensures DrainSizes(pools, k)[k := Read(pools[k]).1] == DrainSizes(pools, k + 1)
  {
  }

  /** Copying digest `k` to offset `32 k` of a buffer that holds digests `0..k-1` then zeros. */
  lemma PlaceDigest(pools: seq<PoolState>, k: nat)
    requires k < NumberOfPools <= |pools|
    requires forall i :: 0 <= i <= k ==> pools[i].hash.Some? && |pools[i].hash.value| == DigestLength
    ensures var buffer := Filled(pools, k);
      buffer[..DigestLength * k] + pools[k].hash.value + buffer[DigestLength * (k + 1)..] == Filled(pools, k + 1)
  {
    var buffer := Filled(pools, k);
    assert buffer[..DigestLength * k] == Digests(pools, k);
    assert buffer[DigestLength * (k + 1)..] == Zeros(MaxSeedSize - DigestLength * (k + 1));
  }

  // ---------------------------------------------------------------------------
  // The drain schedule
  // ---------------------------------------------------------------------------

  lemma ModOfDouble(r: nat, a: nat)
    requires a > 0 && r % (2 * a) == 0
    ensures r % a == 0
  {
    var q := r / (2 * a);
    assert r == q * (2 * a);
    ModUnique(r, a, 2 * q, 0);
  }

  /** `2^j` divides `2^i` when `j <= i`, so divisibility by `2^i` carries down to every smaller power. */
  lemma {:induction false} Pow2DividesDown(r: nat, j: nat, i: nat)
    requires j <= i && r % Pow2(i) == 0
    ensures r % Pow2(j) == 0
    decreases i
  {
    if j < i {
      ModOfDouble(r, Pow2(i - 1));
      Pow2DividesDown(r, j, i - 1);
    }
  }

  lemma {:induction false} DrainCountReaches(r: nat, from: nat, i: nat)
    requires from <= i < NumberOfPools
    requires forall j :: from <= j <= i ==> r % Pow2(j) == 0
    ensures DrainCountFrom(r, from) > i
    decreases i - from
  {
    if from < i {
      DrainCountReaches(r, from + 1, i);
    }
  }

  lemma {:induction false} DrainCountStops(r: nat, from: nat, i: nat)
    requires from <= NumberOfPools && from <= i < DrainCountFrom(r, from)
    ensures r % Pow2(i) == 0
    decreases i - from
  {
    if from < i {
      DrainCountStops(r, from + 1, i);
    }
  }

  /**
   * The drain schedule: request `r` drains pool `i` exactly when `2^i`
   * divides `r`; the drained pools therefore form a prefix.
   */
  lemma DrainScheduleIff(r: nat, i: nat)
    requires i < NumberOfPools
    ensures i < DrainCount(r) <==> r % Pow2(i) == 0
  {
    if r % Pow2(i) == 0 {
      forall j | 0 <= j <= i
        ensures r % Pow2(j) == 0
      {
        Pow2DividesDown(r, j, i);
      }
      DrainCountReaches(r, 0, i);
    }
    if i < DrainCount(r) {
      DrainCountStops(r, 0, i);
    }
  }

  /** The very first request (index 0) drains all 32 pools. */
  lemma FirstRequestDrainsAll()
    ensures DrainCount(0) == NumberOfPools
  {
    DrainScheduleIff(0, NumberOfPools - 1);
  }

  lemma {:induction false} DigestsAt(pools: seq<PoolState>, k: nat, i: nat, j: nat)
    requires k <= |pools|
    requires forall n :: 0 <= n < k ==> pools[n].hash.Some? && |pools[n].hash.value| == DigestLength
    requires i < k && j < DigestLength
    ensures Digests(pools, k)[DigestLength * i + j] == pools[i].hash.value[j]
  {
    if i < k - 1 {
      DigestsAt(pools, k - 1, i, j);
    }
  }

  /**
   * Without enough entropy nothing changes; otherwise the request counter goes
   * up by one and, on success, pool `i` has been drained (size zero) exactly
   * when `2^i` divides the old request counter, every other pool untouched and
   * every digest kept.
   */
  lemma DrainedPools(st: AccState, i: nat)
    requires WellFormed(st) && i < NumberOfPools
    ensures !EnoughEntropy(st) ==> GetRandomData(st) == (Failure(InvalidOperation), st)
    ensures EnoughEntropy(st) ==> GetRandomData(st).1.requestCount == st.requestCount + 1
    ensures GetRandomData(st).1.pools[i].hash == st.pools[i].hash
    ensures GetRandomData(st).0.Success? ==>
      GetRandomData(st).1.pools[i].size == if st.requestCount % Pow2(i) == 0 then 0 else st.pools[i].size
  {
    DrainScheduleIff(st.requestCount, i);
  }

  /**
   * The reseed value is always 1024 bytes: drained pool `i`'s digest sits at
   * offset `32 * i` and every other byte is zero.
   */
  lemma SeedLayout(st: AccState, i: nat, j: nat)
    requires WellFormed(st) && GetRandomData(st).0.Success?
    requires i < NumberOfPools && j < DigestLength
    ensures |GetRandomData(st).0.value| == MaxSeedSize
    ensures st.requestCount % Pow2(i) == 0 ==>
      st.pools[i].hash.Some? && GetRandomData(st).0.value[DigestLength * i + j] == st.pools[i].hash.value[j]
    ensures st.requestCount % Pow2(i) != 0 ==> GetRandomData(st).0.value[DigestLength * i + j] == 0
  {
    var k := DrainCount(st.requestCount);
    DrainScheduleIff(st.requestCount, i);
    if i < k {
      DigestsAt(st.pools, k, i, j);
    }
  }

  /** Pool 0 is drained by every request that gets past the entropy check, so readiness is spent. */
  lemma DrainSpendsEntropy(st: AccState)
    requires WellFormed(st) && EnoughEntropy(st)
    ensures !EnoughEntropy(GetRandomData(st).1)
  {
  }

  // ---------------------------------------------------------------------------
  // When every event is well formed, no drained pool is null
  // ---------------------------------------------------------------------------

  /** Largest number of bytes one accepted event adds to a pool. */
  const MaxEventSize := MaxEventLength + 2

  /**
   * Every pool whose first turn has come holds a digest, and pool 0's size is
   * bounded by the number of turns it has had.
   */
  ghost predicate Fed(st: AccState)
    requires |st.pools| == NumberOfPools
  {
    && (forall i :: 0 <= i < NumberOfPools && i < st.runningCount ==> st.pools[i].hash.Some?)
    && st.pools[0].size <= MaxEventSize * ((st.runningCount + NumberOfPools - 1) / NumberOfPools)
  }

  predicate WellFormedEvent(e: EntropyEvent) {
    |e.data| <= MaxEventLength && 0 <= e.source <= MaxSource
  }

  lemma InitialFed()
    ensures Fed(Initial())
  {
  }

  /** Delivering a well-formed event keeps the accumulator fed. */
  lemma DeliverKeepsFed(p: Primitives, st: AccState, e: EntropyEvent)
    requires |st.pools| == NumberOfPools && Fed(st) && WellFormedEvent(e)
    ensures Fed(Deliver(p, st, e).1)
  {
    var rc := st.runningCount;
    if rc % NumberOfPools == 0 {
      assert (rc + NumberOfPools) / NumberOfPools == (rc + NumberOfPools - 1) / NumberOfPools + 1;
    } else {
      assert (rc + NumberOfPools) / NumberOfPools == (rc + NumberOfPools - 1) / NumberOfPools;
    }
  }

  /** A drain, successful or not, keeps the accumulator fed. */
  lemma GetRandomDataKeepsFed(st: AccState)
    requires WellFormed(st) && Fed(st)
    ensures Fed(GetRandomData(st).1)
  {
  }

  /**
   * A fed accumulator with enough entropy has seen at least 33 events, so every
   * pool has a digest and the drain succeeds: the null-digest failure needs an
   * event that was rejected on its pool's first turn.
   */
  lemma FedDrainSucceeds(st: AccState)
    requires WellFormed(st) && Fed(st) && EnoughEntropy(st)
    ensures GetRandomData(st).0.Success?
  {
    var rc := st.runningCount;
    assert (rc + NumberOfPools - 1) / NumberOfPools >= 2;
    assert rc > NumberOfPools;
  }

  /** Once any drained pool is null the request fails, but the counter still advances. */
  lemma NullPoolFailsFirstRequest(st: AccState, j: nat)
    requires WellFormed(st) && EnoughEntropy(st) && st.requestCount == 0
    requires j < NumberOfPools && st.pools[j].hash.None?
    ensures GetRandomData(st).0 == Failure(NullReference)
    ensures GetRandomData(st).1.requestCount == 1
  {
    FirstRequestDrainsAll();
  }

  // ---------------------------------------------------------------------------
  // The accumulator object
  // ---------------------------------------------------------------------------

  class FortunaAccumulator {
    const crypto: Primitives
    const pools: array<Pool>
    var sourceCount: nat
    var runningCount: nat
    var requestDataCount: nat
    var disposed: bool

    /** 32 distinct valid pools sharing the accumulator's primitives. */
    ghost predicate Valid()
      reads this, pools, pools[..]
    {
      && ValidPrimitives(crypto)
      && pools.Length == NumberOfPools
      && (forall i, j :: 0 <= i < j < pools.Length ==> pools[i] != pools[j])
      && (forall i :: 0 <= i < pools.Length ==> pools[i].crypto == crypto && pools[i].Valid())
    }

    ghost function PoolStates(): (s: seq<PoolState>)
      reads pools, pools[..]
      ensures |s| == pools.Length
    {
      seq(pools.Length, i reads pools, pools[..] requires 0 <= i < pools.Length => pools[i].State())
    }

    ghost function State(): AccState
      reads this, pools, pools[..]
    {
      AccState(PoolStates(), runningCount, requestDataCount)
    }

    constructor (crypto: Primitives)
      requires ValidPrimitives(crypto)
      ensures Valid() && this.crypto == crypto
      ensures State() == Initial()
      ensures sourceCount == 0 && !disposed
      ensures fresh(pools) && forall i :: 0 <= i < pools.Length ==> fresh(pools[i])
    {
      var created: seq<Pool> := [];
      while |created| < NumberOfPools
        invariant |created| <= NumberOfPools
        invariant forall i :: 0 <= i < |created| ==> fresh(created[i])
        invariant forall i :: 0 <= i < |created| ==> created[i].crypto == crypto && created[i].Valid()
        invariant forall i :: 0 <= i < |created| ==> created[i].State() == EmptyPool
        invariant forall i, j :: 0 <= i < j < |created| ==> created[i] != created[j]
      {
        var pool := new Pool(crypto);
        created := created + [pool];
      }
      this.crypto := crypto;
      pools := new Pool[NumberOfPools](i requires 0 <= i < NumberOfPools => created[i]);
      sourceCount, runningCount, requestDataCount := 0, 0, 0;
      disposed := false;
      new;
      assert PoolStates() == Initial().pools;
    }

    predicate HasEnoughEntropy()
      reads this, pools, pools[0]
      requires pools.Length == NumberOfPools
    {
      pools[0].runningSize > MinEntropyPoolSize
    }

    /**
     * Assigns source ids `sourceCount, sourceCount + 1, ...` to the providers
     * in order; the id counter is bumped before the check, and the first id
     * above 255 throws.
     */
    method RegisterEntropySources(providerCount: nat) returns (scheduled: seq<int>, outcome: Outcome<Error>)
      modifies this`sourceCount
      ensures outcome.Fail? <==> providerCount > 0 && old(sourceCount) + providerCount > MaxNumberOfSources + 1
      ensures outcome.Fail? ==> outcome.error == InvalidOperation
      ensures |scheduled| == if outcome.Pass? then providerCount
                             else if old(sourceCount) <= MaxNumberOfSources then MaxNumberOfSources + 1 - old(sourceCount)
                             else 0
      ensures forall k :: 0 <= k < |scheduled| ==> scheduled[k] == old(sourceCount) + k
      ensures sourceCount == old(sourceCount) + |scheduled| + (if outcome.Fail? then 1 else 0)
    {
      scheduled := [];
      var registered := 0;
      while registered < providerCount
        invariant registered <= providerCount
        invariant registered == 0 || old(sourceCount) + registered <= MaxNumberOfSources + 1
        invariant |scheduled| == registered && sourceCount == old(sourceCount) + registered
        invariant forall k :: 0 <= k < |scheduled| ==> scheduled[k] == old(sourceCount) + k
      {
        var eventSource := sourceCount;
        sourceCount := sourceCount + 1;
        if eventSource > MaxNumberOfSources {
          return scheduled, Fail(InvalidOperation);
        }
        scheduled := scheduled + [eventSource];
        registered := registered + 1;
      }
      outcome := Pass;
    }

    method AccumulateEntropy(source: int, data: seq<byte>) returns (outcome: Outcome<Error>)
      requires Valid()
      modifies this`runningCount, pools[runningCount % NumberOfPools]
      ensures Valid()
      ensures (outcome, State()) == Deliver(crypto, old(State()), EntropyEvent(source, data))
    {
      var poolIndex := runningCount % NumberOfPools;
      runningCount := runningCount + 1;
      outcome := pools[poolIndex].AddEventData(source, data);
      assert PoolStates() == old(State()).pools[poolIndex := pools[poolIndex].State()];
    }

    method GetRandomDataFromPools() returns (r: Result<seq<byte>, Error>)
      requires Valid()
      modifies this`requestDataCount, pools[..]
      ensures Valid()
      ensures (r, State()) == GetRandomData(old(State()))
    {
      if !HasEnoughEntropy() {
        return Failure(InvalidOperation);
      }
      ghost var before := State();
      var requestForDataCount := requestDataCount;
      requestDataCount := requestDataCount + 1;
      var randomData := new byte[MaxSeedSize](_ => 0);
      assert randomData[..] == Zeros(MaxSeedSize);
      assert PoolStates() == before.pools;
      var hitNull := DrainPools(requestForDataCount, randomData);
      if hitNull {
        r := Failure(NullReference);
      } else {
        r := Success(randomData[..]);
      }
      assert (r, PoolStates()) == Drain(before.pools, before.requestCount);
    }

    /**
     * The loop of `GetRandomDataFromPools`: reads pool `i` for as long as
     * `2^i` divides the request number, copying each digest to offset `32 i`
     * of `randomData`; stops early when a drained pool has no hash.
     */
    method DrainPools(requestNumber: nat, randomData: array<byte>) returns (hitNull: bool)
      requires Valid()
      requires randomData.Length == MaxSeedSize && randomData[..] == Zeros(MaxSeedSize)
      modifies pools[..], randomData
      ensures Valid()
      ensures (if hitNull then Failure(NullReference) else Success(randomData[..]), PoolStates())
           == Drain(old(PoolStates()), requestNumber)
    {
      ghost var before := PoolStates();
      DrainStart(before, requestNumber);
      var bufferIndex := 0;
      var poolIndex := 0;
      while poolIndex < NumberOfPools
        invariant 0 <= poolIndex <= NumberOfPools && bufferIndex == DigestLength * poolIndex
        invariant Valid() && Draining(before, requestNumber, poolIndex)
        invariant PoolStates() == DrainSizes(before, poolIndex)
        invariant randomData[..] == Filled(before, poolIndex)
      {
        if requestNumber % Pow2(poolIndex) != 0 {
          break;
        }
        var poolData := DrainPool(before, requestNumber, poolIndex, randomData);
        if poolData.None? {
          return true;
        }
        bufferIndex := bufferIndex + DigestLength;
        poolIndex := poolIndex + 1;
      }
      DrainDrains(before, requestNumber, poolIndex);
      return false;
    }

    /**
     * One step of the loop: reads pool `i` and copies its digest, when there
     * is one, after the digests of pools `0..i-1`.
     */
    method DrainPool(ghost before: seq<PoolState>, ghost r: nat, i: nat, randomData: array<byte>) returns (poolData: Option<seq<byte>>)
      requires Valid() && Draining(before, r, i) && i < NumberOfPools && r % Pow2(i) == 0
      requires randomData.Length == MaxSeedSize
      requires PoolStates() == DrainSizes(before, i) && randomData[..] == Filled(before, i)
      modifies pools[i], randomData
      ensures Valid() && poolData == before[i].hash
      ensures poolData.None? ==> Drain(before, r) == (Failure(NullReference), PoolStates())
      ensures poolData.Some? ==> Draining(before, r, i + 1)
      ensures poolData.Some? ==> PoolStates() == DrainSizes(before, i + 1) && randomData[..] == Filled(before, i + 1)
    {
      poolData := pools[i].ReadFromPool();
      assert PoolStates() == old(PoolStates())[i := Read(old(PoolStates())[i]).1];
      DrainSizesStep(before, i);
      if poolData.Some? {
        CopyDigest(before, i, poolData.value, randomData);
        DrainContinues(before, r, i);
      } else {
        DrainHitsNull(before, r, i);
      }
    }

    /** `poolData.CopyTo(randomData, bufferIndex)` for the digest of pool `i`. */
    static method CopyDigest(ghost before: seq<PoolState>, i: nat, digest: seq<byte>, randomData: array<byte>)
      requires i < NumberOfPools <= |before|
      requires forall k :: 0 <= k < i ==> before[k].hash.Some? && |before[k].hash.value| == DigestLength
      requires before[i].hash == Some(digest) && |digest| == DigestLength
      requires randomData[..] == Filled(before, i)
      modifies randomData
      ensures randomData[..] == Filled(before, i + 1)
    {
      ArrayCopy(digest, randomData, DigestLength * i);
      PlaceDigest(before, i);
    }

    method Dispose()
      modifies this`disposed
      ensures disposed
    {
      if disposed {
        return;
      }
      disposed := true;
    }
  }
}
