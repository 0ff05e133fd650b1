/**
 * The Fortuna random number provider (PRNGFortunaProvider.cs): it serves
 * bytes from the generator and reseeds it from the accumulator's pools at most
 * once every 100 milliseconds, and only once pool 0 holds enough entropy.
 * Clock readings are `DateTime` ticks of 100 nanoseconds, passed in.
 */
module Provider {
  import opened Wrappers
  import opened Primitives
  import opened Accumulator
  import opened Generator

  /** `TimeSpan.FromMilliseconds(100)` in ticks. */
  const ReseedInterval := 100 * 10000
  /** `DateTime.MinValue`, the last reseed time of a provider never reseeded. */
  const MinTime := 0

  /** The provider as a value: generator, accumulator, time of the last reseed, number of reseeds. */
  datatype ProviderState = ProviderState(gen: GenState, acc: AccState, lastReseedTime: int, reseedCount: nat)

  /** What the provider looks like right after construction. */
  function Fresh(gen: GenState, acc: AccState): (st: ProviderState)
    ensures st.reseedCount == 0 && st.lastReseedTime == MinTime
  {
    ProviderState(gen, acc, MinTime, 0)
  }

  /** `GetBytes` draws a reseed exactly when pool 0 is ready and more than 100 ms have passed. */
  predicate ReseedDue(st: ProviderState, now: int)
    requires |st.acc.pools| == NumberOfPools
  {
    EnoughEntropy(st.acc) && now - st.lastReseedTime > ReseedInterval
  }

  /** The private `Reseed`: count it, reseed the generator, stamp the time. */
  function ReseedWith(p: Primitives, st: ProviderState, seed: seq<byte>, now: int): (r: ProviderState)
    requires ValidPrimitives(p)
    ensures r.reseedCount == st.reseedCount + 1 && r.lastReseedTime == now && r.acc == st.acc
    ensures r.gen.counter == st.gen.counter + 1 && r.gen.key == p.sha256(st.gen.key + seed)
  {
    st.(reseedCount := st.reseedCount + 1, gen := Reseeded(p, st.gen, seed), lastReseedTime := now)
  }

  /** The reseed step at the head of `GetBytes`; a drain that throws ends the call. */
  function MaybeReseed(p: Primitives, st: ProviderState, now: int): (r: (Outcome<Error>, ProviderState))
    requires ValidPrimitives(p) && WellFormed(st.acc)
    ensures WellFormed(r.1.acc) && r.1.acc.runningCount == st.acc.runningCount
  {
    if ReseedDue(st, now) then DueReseed(p, st, now) else (Pass, st)
  }

  /** A due reseed: drain the pools, and reseed the generator with the drain unless it threw. */
  function DueReseed(p: Primitives, st: ProviderState, now: int): (r: (Outcome<Error>, ProviderState))
    requires ValidPrimitives(p) && WellFormed(st.acc)
    ensures WellFormed(r.1.acc) && r.1.acc.runningCount == st.acc.runningCount
  {
    var (seed, acc) := GetRandomData(st.acc);
    if seed.Failure? then (Fail(seed.error), st.(acc := acc))
    else (Pass, ReseedWith(p, st.(acc := acc), seed.value, now))
  }

  /**
   * `GetBytes` for a buffer of `length` bytes: maybe reseed, refuse while the
   * provider has never been reseeded, then fill from the generator.
   */
  function GetBytesSpec(p: Primitives, st: ProviderState, now: int, length: nat): (r: (Result<seq<byte>, Error>, ProviderState))
    requires ValidPrimitives(p) && WellFormed(st.acc)
    ensures WellFormed(r.1.acc) && r.1.acc.runningCount == st.acc.runningCount
    ensures r.0.Success? ==> |r.0.value| == length && r.1.reseedCount >= 1
  {
    var (drawn, ready) := MaybeReseed(p, st, now);
    if drawn.Fail? then (Failure(drawn.error), ready)
    else if ready.reseedCount == 0 then (Failure(InvalidOperation), ready)
    else
      var (out, gen) := Bytes(p, ready.gen, length);
      (out, ready.(gen := gen))
  }

  // ---------------------------------------------------------------------------
  // Waiting for entropy

  /**
   * One turn of the `InitializePRNG` loop: whether the token has been
   * cancelled when it is checked, and the events the entropy sources deliver
   * while the loop sleeps.
   */
  datatype Poll = Poll(cancelled: bool, arrivals: seq<EntropyEvent>)

  /** How `InitializePRNG` ends: it returns, it throws OperationCanceledException, or it is still waiting when the polls run out. */
  datatype InitResult = Initialized | Canceled | StillWaiting

  /**
   * `InitializePRNG` over a sequence of polls. Readiness is checked before the
   * token, so a ready accumulator returns even under a cancelled token.
   */
  function Wait(p: Primitives, acc: AccState, polls: seq<Poll>): (r: (InitResult, AccState))
    requires |acc.pools| == NumberOfPools
    ensures |r.1.pools| == NumberOfPools
    ensures r.0 == Initialized <==> EnoughEntropy(r.1)
    ensures r.0 == Canceled ==> exists i :: 0 <= i < |polls| && polls[i].cancelled
    ensures (exists i :: 0 <= i < |polls| && polls[i].cancelled) ==> r.0 != StillWaiting
    decreases |polls|
  {
    if EnoughEntropy(acc) then (Initialized, acc)
    else if polls == [] then (StillWaiting, acc)
    else if polls[0].cancelled then (Canceled, acc)
    else
      var r := Wait(p, DeliverAll(p, acc, polls[0].arrivals), polls[1..]);
      assert r.0 == Canceled ==> exists i :: 1 <= i < |polls| && polls[i].cancelled;
      assert (exists i :: 0 <= i < |polls| && polls[i].cancelled)
          ==> exists j :: 0 <= j < |polls[1..]| && polls[1..][j].cancelled by {
        if i :| 0 <= i < |polls| && polls[i].cancelled {
          assert polls[1..][i - 1] == polls[i];
        }
      }
      r
  }

  /** The events the entropy sources deliver over a run of polls, in order. */
  function Arrivals(polls: seq<Poll>): seq<EntropyEvent> {
    if polls == [] then [] else polls[0].arrivals + Arrivals(polls[1..])
  }

  /** How many times the `InitializePRNG` loop sleeps before it returns or throws. */
  function WaitTurns(p: Primitives, acc: AccState, polls: seq<Poll>): (k: nat)
    requires |acc.pools| == NumberOfPools
    ensures k <= |polls|
    decreases |polls|
  {
    if EnoughEntropy(acc) || polls == [] || polls[0].cancelled then 0
    else 1 + WaitTurns(p, DeliverAll(p, acc, polls[0].arrivals), polls[1..])
  }

  /** The arrivals of the first `k + 1` polls are those of the first, then those of the next `k`. */
  lemma ArrivalsStep(polls: seq<Poll>, k: nat)
    requires k < |polls|
    ensures Arrivals(polls[..k + 1]) == polls[0].arrivals + Arrivals(polls[1..][..k])
  {
    assert polls[..k + 1][1..] == polls[1..][..k];
  }

  /**
   * What the wait leaves behind: the accumulator has received exactly the
   * arrivals of the polls it slept through. It ends `StillWaiting` only when
   * every poll was used and pool 0 is still short, and `Canceled` only at a
   * poll that saw the token cancelled.
   */
  lemma {:induction false} WaitTrace(p: Primitives, acc: AccState, polls: seq<Poll>)
    requires |acc.pools| == NumberOfPools
    ensures var r := Wait(p, acc, polls);
      var k := WaitTurns(p, acc, polls);
      && r.1 == DeliverAll(p, acc, Arrivals(polls[..k]))
      && (r.0 == StillWaiting <==> k == |polls| && !EnoughEntropy(r.1))
      && (r.0 == Canceled ==> k < |polls| && polls[k].cancelled)
    decreases |polls|
  {
    var k := WaitTurns(p, acc, polls);
    if EnoughEntropy(acc) || polls == [] || polls[0].cancelled {
      assert polls[..k] == [];
    } else {
      var next := DeliverAll(p, acc, polls[0].arrivals);
      var rest := polls[1..];
      WaitTrace(p, next, rest);
      var k' := WaitTurns(p, next, rest);
      assert Wait(p, acc, polls) == Wait(p, next, rest) && k == k' + 1;
      ArrivalsStep(polls, k');
      DeliverAllAppend(p, acc, polls[0].arrivals, Arrivals(rest[..k']));
      assert DeliverAll(p, acc, Arrivals(polls[..k])) == DeliverAll(p, next, Arrivals(rest[..k']));
      assert k' < |rest| ==> rest[k'] == polls[k];
    }
  }

  /**
   * The loop sleeps only while it should: before each poll it slept through,
   * pool 0 was short and that poll did not see the token cancelled.
   */
  lemma {:induction false} WaitSleepsWhileShort(p: Primitives, acc: AccState, polls: seq<Poll>)
    requires |acc.pools| == NumberOfPools
    ensures var k := WaitTurns(p, acc, polls);
      && (forall i :: 0 <= i < k ==> !polls[i].cancelled)
      && (forall i :: 0 <= i < k ==> !EnoughEntropy(DeliverAll(p, acc, Arrivals(polls[..i]))))
    decreases |polls|
  {
    var k := WaitTurns(p, acc, polls);
    if k > 0 {
      var next := DeliverAll(p, acc, polls[0].arrivals);
      var rest := polls[1..];
      WaitSleepsWhileShort(p, next, rest);
      forall i | 0 <= i < k
        ensures !polls[i].cancelled
      {
        if i > 0 {
          assert rest[i - 1] == polls[i];
        }
      }
      forall i | 0 <= i < k
        ensures !EnoughEntropy(DeliverAll(p, acc, Arrivals(polls[..i])))
      {
        ShortBeforePoll(p, acc, polls, i);
      }
    }
  }

  /** The accumulator before poll `i + 1` is the one before poll `i` of the rest, after the first poll's arrivals. */
  lemma ShortBeforePoll(p: Primitives, acc: AccState, polls: seq<Poll>, i: nat)
    requires |acc.pools| == NumberOfPools && i < WaitTurns(p, acc, polls)
    requires forall j :: 0 <= j < WaitTurns(p, DeliverAll(p, acc, polls[0].arrivals), polls[1..]) ==>
                         !EnoughEntropy(DeliverAll(p, DeliverAll(p, acc, polls[0].arrivals), Arrivals(polls[1..][..j])))
    ensures !EnoughEntropy(DeliverAll(p, acc, Arrivals(polls[..i])))
  {
    if i == 0 {
      assert polls[..0] == [];
    } else {
      ArrivalsStep(polls, i - 1);
      DeliverAllAppend(p, acc, polls[0].arrivals, Arrivals(polls[1..][..i - 1]));
    }
  }

  // ---------------------------------------------------------------------------
  // Properties

  /**
   * On an accumulator kept fed (every event well-formed), `GetBytes` reseeds
   * exactly when the reseed is due, the seed is the accumulator's drain, and
   * otherwise the reseed step changes nothing.
   */
  lemma ReseedIff(p: Primitives, st: ProviderState, now: int)
    requires ValidPrimitives(p) && WellFormed(st.acc) && Fed(st.acc)
    ensures MaybeReseed(p, st, now).0.Pass?
    ensures MaybeReseed(p, st, now).1.reseedCount == st.reseedCount + 1 <==> ReseedDue(st, now)
    ensures ReseedDue(st, now) ==>
      MaybeReseed(p, st, now).1 == ReseedWith(p, st.(acc := GetRandomData(st.acc).1), GetRandomData(st.acc).0.value, now)
    ensures !ReseedDue(st, now) ==> MaybeReseed(p, st, now).1 == st
  {
    if ReseedDue(st, now) {
      FedDrainSucceeds(st.acc);
    }
  }

  /** A provider never reseeded refuses to serve until a reseed is due, and the refusal changes nothing. */
  lemma UnseededRefuses(p: Primitives, st: ProviderState, now: int, length: nat)
    requires ValidPrimitives(p) && WellFormed(st.acc)
    requires st.reseedCount == 0 && !ReseedDue(st, now)
    ensures GetBytesSpec(p, st, now, length) == (Failure(InvalidOperation), st)
  {
  }

  /**
   * Once reseeded, a provider over a seeded generator and a fed accumulator
   * serves every request of at most 16 KB, and the output is the generator's
   * output after the reseed step.
   */
  lemma ReseededServes(p: Primitives, st: ProviderState, now: int, length: nat)
    requires ValidPrimitives(p) && WellFormed(st.acc) && Fed(st.acc)
    requires Seeded(st.gen) && length <= StringSize
    requires st.reseedCount >= 1 || ReseedDue(st, now)
    ensures GetBytesSpec(p, st, now, length).0.Success?
    ensures GetBytesSpec(p, st, now, length).0 == Bytes(p, MaybeReseed(p, st, now).1.gen, length).0
  {
    ReseedIff(p, st, now);
    BytesOutcome(p, MaybeReseed(p, st, now).1.gen, length);
  }

  /**
   * The first `GetBytes` with pool 0 ready more than 100 ms after
   * `DateTime.MinValue` reseeds, so a fresh provider is served as soon as it
   * has enough entropy.
   */
  lemma FirstReadyCallReseeds(p: Primitives, gen: GenState, acc: AccState, now: int, length: nat)
    requires ValidPrimitives(p) && WellFormed(acc) && Fed(acc) && EnoughEntropy(acc)
    requires Seeded(gen) && now > MinTime + ReseedInterval && length <= StringSize
    ensures GetBytesSpec(p, Fresh(gen, acc), now, length).1.reseedCount == 1
    ensures GetBytesSpec(p, Fresh(gen, acc), now, length).1.lastReseedTime == now
    ensures GetBytesSpec(p, Fresh(gen, acc), now, length).0.Success?
  {
    ReseedIff(p, Fresh(gen, acc), now);
    ReseededServes(p, Fresh(gen, acc), now, length);
  }

  /** A call that reseeds opens a 100 ms window in which no later call reseeds again. */
  lemma OneReseedPerInterval(p: Primitives, st: ProviderState, now: int, later: int, length: nat)
    requires ValidPrimitives(p) && WellFormed(st.acc)
    requires GetBytesSpec(p, st, now, length).1.reseedCount > st.reseedCount
    requires later - now <= ReseedInterval
    ensures !ReseedDue(GetBytesSpec(p, st, now, length).1, later)
  {
  }

  /** A reseed drains pool 0, so the call right after it cannot reseed either, whenever it comes. */
  lemma ReseedSpendsReadiness(p: Primitives, st: ProviderState, now: int, later: int, length: nat)
    requires ValidPrimitives(p) && WellFormed(st.acc) && ReseedDue(st, now)
    ensures !ReseedDue(GetBytesSpec(p, st, now, length).1, later)
  {
    DrainSpendsEntropy(st.acc);
  }

  /** `GetBytes` only drains pools, so an accumulator kept fed stays fed. */
  lemma GetBytesKeepsFed(p: Primitives, st: ProviderState, now: int, length: nat)
    requires ValidPrimitives(p) && WellFormed(st.acc) && Fed(st.acc)
    ensures Fed(GetBytesSpec(p, st, now, length).1.acc)
  {
    GetRandomDataKeepsFed(st.acc);
  }

  /** Waiting only delivers events, so well-formed arrivals keep the accumulator fed. */
  lemma {:induction false} WaitKeepsFed(p: Primitives, acc: AccState, polls: seq<Poll>)
    requires |acc.pools| == NumberOfPools && Fed(acc)
    requires forall i, j :: 0 <= i < |polls| && 0 <= j < |polls[i].arrivals| ==> WellFormedEvent(polls[i].arrivals[j])
    ensures Fed(Wait(p, acc, polls).1)
    decreases |polls|
  {
    if !EnoughEntropy(acc) && polls != [] && !polls[0].cancelled {
      DeliverAllKeepsFed(p, acc, polls[0].arrivals);
      assert forall i, j :: 0 <= i < |polls[1..]| && 0 <= j < |polls[1..][i].arrivals| ==>
        polls[1..][i].arrivals[j] == polls[i + 1].arrivals[j];
      WaitKeepsFed(p, DeliverAll(p, acc, polls[0].arrivals), polls[1..]);
    }
  }

  lemma {:induction false} DeliverAllKeepsFed(p: Primitives, acc: AccState, events: seq<EntropyEvent>)
    requires |acc.pools| == NumberOfPools && Fed(acc)
    requires forall j :: 0 <= j < |events| ==> WellFormedEvent(events[j])
    ensures Fed(DeliverAll(p, acc, events))
  {
    if events != [] {
      var n := |events| - 1;
      DeliverAllKeepsFed(p, acc, events[..n]);
      DeliverKeepsFed(p, DeliverAll(p, acc, events[..n]), events[n]);
    }
  }

  /**
   * End to end: once `InitializePRNG` has returned over a fed accumulator, a
   * `GetBytes` more than 100 ms after the last reseed reseeds and serves any
   * request of at most 16 KB.
   */
  lemma InitializedThenServed(p: Primitives, st: ProviderState, polls: seq<Poll>, now: int, length: nat)
    requires ValidPrimitives(p) && WellFormed(st.acc) && Fed(st.acc) && Seeded(st.gen)
    requires forall i, j :: 0 <= i < |polls| && 0 <= j < |polls[i].arrivals| ==> WellFormedEvent(polls[i].arrivals[j])
    requires Wait(p, st.acc, polls).0 == Initialized
    requires now - st.lastReseedTime > ReseedInterval && length <= StringSize
    ensures WellFormed(Wait(p, st.acc, polls).1)
    ensures GetBytesSpec(p, st.(acc := Wait(p, st.acc, polls).1), now, length).0.Success?
    ensures GetBytesSpec(p, st.(acc := Wait(p, st.acc, polls).1), now, length).1.reseedCount == st.reseedCount + 1
  {
    WaitKeepsWellFormed(p, st.acc, polls);
    WaitKeepsFed(p, st.acc, polls);
    var ready := st.(acc := Wait(p, st.acc, polls).1);
    ReseedIff(p, ready, now);
    ReseededServes(p, ready, now, length);
  }

  lemma {:induction false} WaitKeepsWellFormed(p: Primitives, acc: AccState, polls: seq<Poll>)
    requires ValidPrimitives(p) && WellFormed(acc)
    ensures WellFormed(Wait(p, acc, polls).1)
    decreases |polls|
  {
    if !EnoughEntropy(acc) && polls != [] && !polls[0].cancelled {
      DeliverAllKeepsWellFormed(p, acc, polls[0].arrivals);
      WaitKeepsWellFormed(p, DeliverAll(p, acc, polls[0].arrivals), polls[1..]);
    }
  }

  lemma {:induction false} DeliverAllKeepsWellFormed(p: Primitives, acc: AccState, events: seq<EntropyEvent>)
    requires ValidPrimitives(p) && WellFormed(acc)
    ensures WellFormed(DeliverAll(p, acc, events))
  {
    if events != [] {
      var n := |events| - 1;
      DeliverAllKeepsWellFormed(p, acc, events[..n]);
      DeliverKeepsWellFormed(p, DeliverAll(p, acc, events[..n]), events[n]);
    }
  }

  lemma DeliverKeepsWellFormed(p: Primitives, acc: AccState, e: EntropyEvent)
    requires ValidPrimitives(p) && WellFormed(acc)
    ensures WellFormed(Deliver(p, acc, e).1)
  {
  }

  // ---------------------------------------------------------------------------
  // The provider object

  class PRNGFortunaProvider {
    const generator: FortunaGenerator
    const accumulator: FortunaAccumulator
    var lastReseedTime: int
    var reseedCount: nat
    var isDisposed: bool

    ghost predicate Valid()
      reads this, generator, accumulator, accumulator.pools, accumulator.pools[..]
    {
      && generator.Valid()
      && accumulator.Valid()
      && WellFormed(accumulator.State())
    }

    ghost function State(): ProviderState
      reads this, generator, accumulator, accumulator.pools, accumulator.pools[..]
    {
      ProviderState(generator.State(), accumulator.State(), lastReseedTime, reseedCount)
    }

    constructor (generator: FortunaGenerator, accumulator: FortunaAccumulator)
      requires generator.Valid()
      requires accumulator.Valid() && WellFormed(accumulator.State())
      ensures Valid() && this.generator == generator && this.accumulator == accumulator
      ensures State() == Fresh(generator.State(), accumulator.State()) && !isDisposed
    {
      this.generator := generator;
      this.accumulator := accumulator;
      lastReseedTime := MinTime;
      reseedCount := 0;
      isDisposed := false;
    }

    /** Polls until pool 0 is ready, checking the token only while it is not. */
    method InitializePRNG(polls: seq<Poll>) returns (r: InitResult)
      requires Valid()
      modifies accumulator`runningCount, accumulator.pools[..]
      ensures Valid()
      ensures (r, accumulator.State()) == Wait(accumulator.crypto, old(accumulator.State()), polls)
    {
      var i := 0;
      while !accumulator.HasEnoughEntropy()
        invariant i <= |polls| && Valid()
        invariant Wait(accumulator.crypto, old(accumulator.State()), polls) == Wait(accumulator.crypto, accumulator.State(), polls[i..])
        decreases |polls| - i
      {
        if i == |polls| {
          return StillWaiting;
        }
        if polls[i].cancelled {
          return Canceled;
        }
        DeliverArrivals(polls[i].arrivals);
        assert polls[i..][1..] == polls[i + 1..];
        i := i + 1;
      }
      r := Initialized;
    }

    /** The events the entropy sources hand to `AccumulateEntropy` while `InitializePRNG` sleeps. */
    method DeliverArrivals(arrivals: seq<EntropyEvent>)
      requires Valid()
      modifies accumulator`runningCount, accumulator.pools[..]
      ensures Valid()
      ensures accumulator.State() == DeliverAll(accumulator.crypto, old(accumulator.State()), arrivals)
    {
      var j := 0;
      while j < |arrivals|
        invariant j <= |arrivals| && Valid()
        invariant accumulator.State() == DeliverAll(accumulator.crypto, old(accumulator.State()), arrivals[..j])
      {
        var _ := accumulator.AccumulateEntropy(arrivals[j].source, arrivals[j].data);
        DeliverKeepsWellFormed(accumulator.crypto, DeliverAll(accumulator.crypto, old(accumulator.State()), arrivals[..j]), arrivals[j]);
        assert arrivals[..j + 1][..j] == arrivals[..j];
        j := j + 1;
      }
      assert arrivals[..j] == arrivals;
    }

    method GetBytes(data: array<byte>, now: int) returns (outcome: Outcome<Error>)
      requires Valid()
      modifies this`lastReseedTime, this`reseedCount, generator, accumulator`requestDataCount, accumulator.pools[..], data
      ensures Valid() && isDisposed == old(isDisposed)
      ensures outcome == GetBytesSpec(generator.crypto, old(State()), now, data.Length).0.ToOutcome()
      ensures State() == GetBytesSpec(generator.crypto, old(State()), now, data.Length).1
      ensures data[..] == GetBytesSpec(generator.crypto, old(State()), now, data.Length).0.GetOr(old(data[..]))
    {
      var drawn := ReseedIfDue(now);
      if drawn.Fail? {
        return drawn;
      }
      if reseedCount == 0 {
        return Fail(InvalidOperation);
      }
      outcome := generator.GenerateBytes(data);
    }

    /** The head of `GetBytes`: reseed from the pools when pool 0 is ready and 100 ms have passed. */
    method ReseedIfDue(now: int) returns (drawn: Outcome<Error>)
      requires Valid()
      modifies this`lastReseedTime, this`reseedCount, generator, accumulator`requestDataCount, accumulator.pools[..]
      ensures Valid() && isDisposed == old(isDisposed)
      ensures (drawn, State()) == MaybeReseed(generator.crypto, old(State()), now)
    {
      var timeSinceLastReseed := now - lastReseedTime;
      if accumulator.HasEnoughEntropy() && timeSinceLastReseed > ReseedInterval {
        drawn := ReseedFromPools(now);
      } else {
        drawn := Pass;
      }
    }

    /** The reseed itself: the drain of the pools becomes the seed, unless the drain throws. */
    method ReseedFromPools(now: int) returns (drawn: Outcome<Error>)
      requires Valid()
      modifies this`lastReseedTime, this`reseedCount, generator, accumulator`requestDataCount, accumulator.pools[..]
      ensures Valid() && isDisposed == old(isDisposed)
      ensures (drawn, State()) == DueReseed(generator.crypto, old(State()), now)
    {
      ghost var before := State();
      var seed := accumulator.GetRandomDataFromPools();
      ghost var acc := accumulator.State();
      assert (seed, acc) == GetRandomData(before.acc);
      if seed.Failure? {
        return Fail(seed.error);
      }
      ghost var mid := before.(acc := acc);
      Reseed(seed.value, now);
      assert accumulator.State() == acc;
      assert generator.State() == Reseeded(generator.crypto, before.gen, seed.value);
      assert State() == ReseedWith(generator.crypto, mid, seed.value, now);
      drawn := Pass;
    }

    /** `IReseedableFortunaProvider.Reseed` and the private `Reseed` it forwards to. */
    method Reseed(seed: seq<byte>, now: int)
      requires generator.Valid()
      modifies this`lastReseedTime, this`reseedCount, generator
      ensures generator.Valid()
      ensures generator.State() == Reseeded(generator.crypto, old(generator.State()), seed)
      ensures reseedCount == old(reseedCount) + 1 && lastReseedTime == now
      ensures isDisposed == old(isDisposed)
    {
      reseedCount := reseedCount + 1;
      generator.Reseed(seed);
      lastReseedTime := now;
    }

    /** Disposes the accumulator once; later calls do nothing. */
    method Dispose()
      modifies this`isDisposed, accumulator`disposed
      ensures isDisposed
      ensures old(isDisposed) ==> accumulator.disposed == old(accumulator.disposed)
      ensures !old(isDisposed) ==> accumulator.disposed
    {
      if isDisposed {
        return;
      }
      accumulator.Dispose();
      isDisposed := true;
    }
  }
}
