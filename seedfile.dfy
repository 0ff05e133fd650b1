/**
 * The seed-file decorator: it wraps a reseedable provider and a byte
 * store holding a 64-byte seed. At start-up a store of exactly 64 bytes
 * reseeds the inner provider directly, skipping the entropy wait. Any other
 * store makes it wait for live entropy. Both paths then rewrite the store
 * with 64 fresh bytes from offset 0.
 *
 * The inner provider sits behind an interface, so its answers to the
 * decorator's calls are parameters and the calls it receives are kept in a
 * trace. The store is an in-memory stream with a position and a log of the
 * operations it received.
 */
module SeedFile {
  import opened Wrappers
  import opened Primitives

  /** Length of the seed kept in the store. */
  const SeedFileLength := 64

  // ---------------------------------------------------------------------------
  // Construction

  /** What the stream reports about itself. */
  datatype Capabilities = Capabilities(canRead: bool, canWrite: bool, canSeek: bool)

  /** The argument checks of the constructor; `None` is a null stream. */
  function ConstructorCheck(innerIsNull: bool, file: Option<Capabilities>): Outcome<Error> {
    if innerIsNull || file.None? then Fail(ArgumentNull)
    else if !file.value.canRead || !file.value.canWrite || !file.value.canSeek then Fail(Argument)
    else Pass
  }

  /** A decorator is built exactly for a present provider and a readable, writable, seekable stream. */
  lemma ConstructorAccepts(innerIsNull: bool, file: Option<Capabilities>)
    ensures ConstructorCheck(innerIsNull, file) == Pass
        <==> !innerIsNull && file == Some(Capabilities(true, true, true))
    ensures ConstructorCheck(innerIsNull, file) == Fail(ArgumentNull) <==> innerIsNull || file.None?
    ensures ConstructorCheck(innerIsNull, file).Fail? ==> ConstructorCheck(innerIsNull, file).error in {ArgumentNull, Argument}
  {
  }

  // ---------------------------------------------------------------------------
  // The store

  datatype StreamOp = ReadOp(count: nat) | SeekOp(position: nat) | WriteOp(count: nat) | FlushOp | SetLengthOp(length: nat)

  datatype StoreState = StoreState(contents: seq<byte>, position: nat, ops: seq<StreamOp>)

  /** The position never passes the end: the store is only ever sought to 0 and read up to its end. */
  predicate StoreValid(st: StoreState) {
    st.position <= |st.contents|
  }

  /** The store as it is when opened again: same bytes, position 0, nothing done yet. */
  function Reopen(st: StoreState): (r: StoreState)
    ensures StoreValid(r) && r.contents == st.contents
  {
    StoreState(st.contents, 0, [])
  }

  /**
   * `Read(buffer, 0, count)` into a fresh buffer: the bytes from the position
   * up to the end or `count`, the rest of the buffer left zero.
   */
  function ReadBytes(st: StoreState, count: nat): (r: (seq<byte>, StoreState))
    requires StoreValid(st)
    ensures |r.0| == count && StoreValid(r.1) && r.1.contents == st.contents
    ensures r.1.position == st.position + Min(count, |st.contents| - st.position)
  {
    var n := Min(count, |st.contents| - st.position);
    (st.contents[st.position..st.position + n] + Zeros(count - n),
     st.(position := st.position + n, ops := st.ops + [ReadOp(count)]))
  }

  function Min(a: int, b: int): int {
    if a <= b then a else b
  }

  /** `data` written over `contents` at `position`, growing the store when it runs past the end. */
  function Overwrite(contents: seq<byte>, position: nat, data: seq<byte>): (r: seq<byte>)
    requires position <= |contents|
  {
    contents[..position] + data
      + (if position + |data| < |contents| then contents[position + |data|..] else [])
  }

  /** Writing keeps the bytes before the position, puts `data` next and keeps whatever lay beyond it. */
  lemma OverwriteLayout(contents: seq<byte>, position: nat, data: seq<byte>)
    requires position <= |contents|
    ensures |Overwrite(contents, position, data)| == if position + |data| < |contents| then |contents| else position + |data|
    ensures Overwrite(contents, position, data)[..position] == contents[..position]
    ensures Overwrite(contents, position, data)[position..position + |data|] == data
    ensures forall i :: position + |data| <= i < |contents| ==> Overwrite(contents, position, data)[i] == contents[i]
  {
    var r := Overwrite(contents, position, data);
    assert r[position..position + |data|] == data by {
      assert r == contents[..position] + data + r[position + |data|..];
    }
  }

  function SeekTo(st: StoreState, position: nat): StoreState {
    st.(position := position, ops := st.ops + [SeekOp(position)])
  }

  function Written(st: StoreState, data: seq<byte>): StoreState
    requires StoreValid(st)
  {
    st.(contents := Overwrite(st.contents, st.position, data), position := st.position + |data|,
        ops := st.ops + [WriteOp(|data|)])
  }

  function Flushed(st: StoreState): StoreState {
    st.(ops := st.ops + [FlushOp])
  }

  function SetLength(st: StoreState, length: nat): StoreState {
    st.(contents := Resize(st.contents, length), position := Min(st.position, length),
        ops := st.ops + [SetLengthOp(length)])
  }

  /** `UpdateSeedFile`: seek to 0, write the seed, flush. */
  function UpdateSeedFile(st: StoreState, seed: seq<byte>): (r: StoreState)
  {
    Flushed(Written(SeekTo(st, 0), seed))
  }

  /**
   * The store after `UpdateSeedFile` holds the seed in front and the old
   * bytes behind it, sits just after the seed, and received exactly a seek to
   * 0, one write of the seed and one flush.
   */
  lemma UpdateSeedFileWrites(st: StoreState, seed: seq<byte>)
    ensures StoreValid(UpdateSeedFile(st, seed))
    ensures UpdateSeedFile(st, seed).contents[..|seed|] == seed
    ensures |UpdateSeedFile(st, seed).contents| == if |seed| < |st.contents| then |st.contents| else |seed|
    ensures forall i :: |seed| <= i < |st.contents| ==> UpdateSeedFile(st, seed).contents[i] == st.contents[i]
    ensures UpdateSeedFile(st, seed).position == |seed|
    ensures UpdateSeedFile(st, seed).ops == st.ops + [SeekOp(0), WriteOp(|seed|), FlushOp]
  {
    OverwriteLayout(st.contents, 0, seed);
  }

  // ---------------------------------------------------------------------------
  // The decorator

  /** A call the decorator makes on the inner provider. */
  datatype InnerCall = InnerReseed(seed: seq<byte>) | InnerInitialize | InnerGetBytes(count: nat) | InnerDispose

  /** How the inner provider answers the calls `InitializePRNG` may make. */
  datatype Answers = Answers(reseed: Outcome<Error>, initialize: Outcome<Error>, draw: Result<seq<byte>, Error>)

  /** A provider that succeeds in `GetBytes` fills the whole buffer. */
  predicate Fills(draw: Result<seq<byte>, Error>, length: nat) {
    draw.Success? ==> |draw.value| == length
  }

  datatype DecoratorState = DecoratorState(
    store: StoreState,
    calls: seq<InnerCall>,   // every call made on the inner provider, in order
    timerArmed: bool,        // the 10-minute refresh timer has been started
    storeDisposed: bool,
    disposed: bool)

  /** The decorator as the constructor leaves it around a store. */
  function Created(store: StoreState): DecoratorState {
    DecoratorState(store, [], false, false, false)
  }

  /**
   * The first half of `InitializePRNG`: a 64-byte store is read and handed to
   * the inner `Reseed`; any other store makes the inner provider initialize
   * itself from live entropy.
   */
  function LoadSeed(ds: DecoratorState, answers: Answers): (Outcome<Error>, DecoratorState)
    requires StoreValid(ds.store)
  {
    if |ds.store.contents| == SeedFileLength then
      var (buffer, store) := ReadBytes(ds.store, SeedFileLength);
      (answers.reseed, ds.(store := store, calls := ds.calls + [InnerReseed(buffer)]))
    else
      (answers.initialize, ds.(calls := ds.calls + [InnerInitialize]))
  }

  /**
   * `InitializePRNG(token)`. A token cancelled before the lock is taken
   * throws `OperationCanceledException` as it is; everything that fails after
   * that is wrapped in a `FortunaException`. On success the store holds 64
   * fresh bytes from the inner provider and the timer runs.
   */
  function Initialize(ds: DecoratorState, cancelled: bool, answers: Answers): (r: (Outcome<Error>, DecoratorState))
    requires StoreValid(ds.store)
    ensures StoreValid(r.1.store)
  {
    if cancelled then (Fail(OperationCanceled), ds)
    else
      var (loaded, ds1) := LoadSeed(ds, answers);
      if loaded.Fail? then (Fail(Fortuna(loaded.error)), ds1)
      else
        var calls := ds1.calls + [InnerGetBytes(SeedFileLength)];
        match answers.draw
        case Failure(e) => (Fail(Fortuna(e)), ds1.(calls := calls))
        case Success(seed) =>
          UpdateSeedFileWrites(ds1.store, seed);
          (Pass, ds1.(store := UpdateSeedFile(ds1.store, seed), calls := calls, timerArmed := true))
  }

  /** The bytes a 64-byte store hands to the inner `Reseed`: what lies after the position, then zeros. */
  function StoredSeed(st: StoreState): seq<byte>
    requires StoreValid(st)
  {
    ReadBytes(st, SeedFileLength).0
  }

  /** A 64-byte store reseeds the inner provider from the store and never asks it to wait for entropy. */
  lemma StoredSeedReseeds(ds: DecoratorState, answers: Answers)
    requires StoreValid(ds.store) && |ds.store.contents| == SeedFileLength
    ensures var r := Initialize(ds, false, answers);
      && |r.1.calls| > |ds.calls|
      && r.1.calls[..|ds.calls| + 1] == ds.calls + [InnerReseed(StoredSeed(ds.store))]
      && InnerInitialize !in r.1.calls[|ds.calls|..]
      && ReadOp(SeedFileLength) in r.1.store.ops[|ds.store.ops|..]
  {
    var r := Initialize(ds, false, answers);
    var (_, ds1) := LoadSeed(ds, answers);
    var reseed := InnerReseed(StoredSeed(ds.store));
    InitializeAfterLoad(ds, answers);
    assert ds1.calls == ds.calls + [reseed];
    assert ds1.store.ops == ds.store.ops + [ReadOp(SeedFileLength)];
    var added := r.1.calls[|ds.calls|..];
    assert added == [reseed] || added == [reseed, InnerGetBytes(SeedFileLength)];
    assert r.1.calls[..|ds.calls| + 1] == ds1.calls;
    assert r.1.store.ops[|ds.store.ops|..][0] == ReadOp(SeedFileLength);
  }

  /** Read from the start, the 64-byte store is the seed itself. */
  lemma StoredSeedFromStart(st: StoreState)
    requires StoreValid(st) && |st.contents| == SeedFileLength && st.position == 0
    ensures StoredSeed(st) == st.contents
  {
    assert st.contents[0..SeedFileLength] == st.contents;
  }

  /** After the seed is loaded, `InitializePRNG` adds at most the `GetBytes` call and only appends store operations. */
  lemma InitializeAfterLoad(ds: DecoratorState, answers: Answers)
    requires StoreValid(ds.store)
    ensures var ds1 := LoadSeed(ds, answers).1;
      var r := Initialize(ds, false, answers);
      && (r.1.calls == ds1.calls || r.1.calls == ds1.calls + [InnerGetBytes(SeedFileLength)])
      && |ds1.store.ops| <= |r.1.store.ops| && r.1.store.ops[..|ds1.store.ops|] == ds1.store.ops
  {
    var (loaded, ds1) := LoadSeed(ds, answers);
    if loaded.Pass? && answers.draw.Success? {
      UpdateSeedFileWrites(ds1.store, answers.draw.value);
    }
  }

  /** A store of any other length makes the inner provider initialize itself, and is never read. */
  lemma OtherLengthWaitsForEntropy(ds: DecoratorState, answers: Answers)
    requires StoreValid(ds.store) && |ds.store.contents| != SeedFileLength
    ensures var r := Initialize(ds, false, answers);
      && |r.1.calls| > |ds.calls|
      && r.1.calls[..|ds.calls| + 1] == ds.calls + [InnerInitialize]
      && (forall c :: c in r.1.calls[|ds.calls|..] ==> !c.InnerReseed?)
      && (forall op :: op in r.1.store.ops[|ds.store.ops|..] ==> !op.ReadOp?)
  {
    var r := Initialize(ds, false, answers);
    var (_, ds1) := LoadSeed(ds, answers);
    if answers.initialize.Pass? && answers.draw.Success? {
      UpdateSeedFileWrites(ds1.store, answers.draw.value);
      assert r.1.store.ops[|ds.store.ops|..] == [SeekOp(0), WriteOp(|answers.draw.value|), FlushOp];
    } else {
      assert r.1.store.ops[|ds.store.ops|..] == [];
    }
    assert r.1.calls[|ds.calls|..] == [InnerInitialize] + r.1.calls[|ds.calls| + 1..];
  }

  /**
   * Initialization succeeds exactly when the token was not cancelled and the
   * inner provider answered every call it received. Then the drawn 64 bytes
   * are the first 64 bytes of the store, written with one seek to 0, one
   * write and one flush after the load, and the timer runs.
   */
  lemma InitializeSucceeds(ds: DecoratorState, cancelled: bool, answers: Answers)
    requires StoreValid(ds.store) && Fills(answers.draw, SeedFileLength)
    ensures var r := Initialize(ds, cancelled, answers);
      var loadAnswer := if |ds.store.contents| == SeedFileLength then answers.reseed else answers.initialize;
      r.0.Pass? <==> !cancelled && loadAnswer.Pass? && answers.draw.Success?
    ensures var r := Initialize(ds, cancelled, answers);
      r.0.Pass? ==>
        && r.1.store.contents[..SeedFileLength] == answers.draw.value
        && r.1.store.position == SeedFileLength
        && r.1.store.ops[|r.1.store.ops| - 3..] == [SeekOp(0), WriteOp(SeedFileLength), FlushOp]
        && r.1.calls[|r.1.calls| - 1] == InnerGetBytes(SeedFileLength)
        && r.1.timerArmed
  {
    var r := Initialize(ds, cancelled, answers);
    if r.0.Pass? {
      var (_, ds1) := LoadSeed(ds, answers);
      UpdateSeedFileWrites(ds1.store, answers.draw.value);
    }
  }

  /**
   * Every failure after the lock is taken is wrapped in a `FortunaException`
   * and leaves the stored bytes and the timer as they were; only a token
   * cancelled up front escapes unwrapped, and then nothing has happened.
   */
  lemma FailuresAreWrapped(ds: DecoratorState, cancelled: bool, answers: Answers)
    requires StoreValid(ds.store)
    ensures var r := Initialize(ds, cancelled, answers);
      r.0.Fail? ==>
        || (cancelled && r.0.error == OperationCanceled && r.1 == ds)
        || (!cancelled && r.0.error.Fortuna? && r.1.store.contents == ds.store.contents
            && r.1.timerArmed == ds.timerArmed)
    ensures var r := Initialize(ds, cancelled, answers);
      r.0.Fail? && !cancelled ==> r.0.error == Fortuna(
        if LoadSeed(ds, answers).0.Fail? then LoadSeed(ds, answers).0.error else answers.draw.error)
  {
  }

  /**
   * A successful start-up from a store of at most 64 bytes leaves exactly 64
   * bytes behind, so the next start-up from the same store reseeds the inner
   * provider with precisely the bytes that were drawn.
   */
  lemma SavedSeedReusedOnRestart(ds: DecoratorState, answers: Answers, next: Answers)
    requires StoreValid(ds.store) && |ds.store.contents| <= SeedFileLength
    requires Fills(answers.draw, SeedFileLength)
    requires Initialize(ds, false, answers).0.Pass?
    ensures var restart := Created(Reopen(Initialize(ds, false, answers).1.store));
      Initialize(restart, false, next).1.calls[0] == InnerReseed(answers.draw.value)
  {
    var after := Initialize(ds, false, answers).1;
    var (_, ds1) := LoadSeed(ds, answers);
    UpdateSeedFileWrites(ds1.store, answers.draw.value);
    assert |after.store.contents| == SeedFileLength;
    assert after.store.contents == answers.draw.value by {
      assert after.store.contents[..SeedFileLength] == after.store.contents;
    }
    StoredSeedReseeds(Created(Reopen(after.store)), next);
  }

  /**
   * The store is read without seeking first: a second `InitializePRNG` on
   * the same decorator finds the position after the seed it just wrote, reads
   * nothing, and reseeds the inner provider with 64 zero bytes.
   */
  lemma SecondInitializeReseedsWithZeros(ds: DecoratorState, answers: Answers, again: Answers)
    requires StoreValid(ds.store) && |ds.store.contents| <= SeedFileLength
    requires Fills(answers.draw, SeedFileLength)
    requires Initialize(ds, false, answers).0.Pass?
    ensures var after := Initialize(ds, false, answers).1;
      Initialize(after, false, again).1.calls[|after.calls|] == InnerReseed(Zeros(SeedFileLength))
  {
    var after := Initialize(ds, false, answers).1;
    var (_, ds1) := LoadSeed(ds, answers);
    UpdateSeedFileWrites(ds1.store, answers.draw.value);
    assert |after.store.contents| == SeedFileLength && after.store.position == SeedFileLength;
    assert StoredSeed(after.store) == Zeros(SeedFileLength) by {
      assert after.store.contents[SeedFileLength..SeedFileLength] == [];
    }
    StoredSeedReseeds(after, again);
  }

  /**
   * As written, a store longer than 64 bytes is overwritten only in front and
   * keeps its length, so no later start-up ever reseeds from it.
   */
  lemma LongStoreNeverReused(ds: DecoratorState, answers: Answers, next: Answers)
    requires StoreValid(ds.store) && |ds.store.contents| > SeedFileLength
    requires Fills(answers.draw, SeedFileLength)
    ensures var after := Initialize(ds, false, answers).1;
      && |after.store.contents| == |ds.store.contents|
      && Initialize(Created(Reopen(after.store)), false, next).1.calls[0] == InnerInitialize
  {
    var after := Initialize(ds, false, answers).1;
    var (loaded, ds1) := LoadSeed(ds, answers);
    if loaded.Pass? && answers.draw.Success? {
      UpdateSeedFileWrites(ds1.store, answers.draw.value);
    }
    OtherLengthWaitsForEntropy(Created(Reopen(after.store)), next);
  }

  /** The same store, of 100 bytes, is passed over at two start-ups in a row. */
  lemma LongStoreExample(answers: Answers, next: Answers)
    requires Fills(answers.draw, SeedFileLength) && answers.initialize.Pass? && answers.draw.Success?
    ensures var ds := Created(StoreState(Zeros(100), 0, []));
      var r := Initialize(ds, false, answers);
      && r.0.Pass? && r.1.calls[0] == InnerInitialize
      && Initialize(Created(Reopen(r.1.store)), false, next).1.calls[0] == InnerInitialize
  {
    var ds := Created(StoreState(Zeros(100), 0, []));
    OtherLengthWaitsForEntropy(ds, answers);
    LongStoreNeverReused(ds, answers, next);
  }

  /** The store update as intended: the store is cut to the 64 bytes of the seed. */
  function InitializeTruncating(ds: DecoratorState, cancelled: bool, answers: Answers): (r: (Outcome<Error>, DecoratorState))
    requires StoreValid(ds.store)
    ensures StoreValid(r.1.store)
  {
    var (outcome, after) := Initialize(ds, cancelled, answers);
    if outcome.Pass? then (outcome, after.(store := SetLength(after.store, SeedFileLength)))
    else (outcome, after)
  }

  /** With the store cut to 64 bytes, a successful start-up is reused by the next one whatever the old length. */
  lemma TruncatingSeedReusedOnRestart(ds: DecoratorState, answers: Answers, next: Answers)
    requires StoreValid(ds.store) && Fills(answers.draw, SeedFileLength)
    requires InitializeTruncating(ds, false, answers).0.Pass?
    ensures var after := InitializeTruncating(ds, false, answers).1;
      && after.store.contents == answers.draw.value
      && Initialize(Created(Reopen(after.store)), false, next).1.calls[0] == InnerReseed(answers.draw.value)
  {
    var after := InitializeTruncating(ds, false, answers).1;
    var (_, ds1) := LoadSeed(ds, answers);
    var written := UpdateSeedFile(ds1.store, answers.draw.value);
    UpdateSeedFileWrites(ds1.store, answers.draw.value);
    assert after.store.contents == answers.draw.value by {
      assert after.store.contents == Resize(written.contents, SeedFileLength);
      assert written.contents[..SeedFileLength] == answers.draw.value;
    }
    StoredSeedReseeds(Created(Reopen(after.store)), next);
  }

  /** `GetBytes`: one call on the inner provider with the caller's buffer; failures pass through unwrapped. */
  function GetBytesSpec(ds: DecoratorState, length: nat, answer: Result<seq<byte>, Error>): (Result<seq<byte>, Error>, DecoratorState) {
    (answer, ds.(calls := ds.calls + [InnerGetBytes(length)]))
  }

  /** `GetBytes` touches nothing but the inner provider: the store, the timer and disposal are as they were. */
  lemma GetBytesPassesThrough(ds: DecoratorState, length: nat, answer: Result<seq<byte>, Error>)
    ensures var r := GetBytesSpec(ds, length, answer);
      && r.0 == answer
      && r.1.calls == ds.calls + [InnerGetBytes(length)]
      && r.1.(calls := ds.calls) == ds
  {
  }

  /** `Dispose`: the first call disposes the store, then the inner provider; later calls do nothing. */
  function DisposeSpec(ds: DecoratorState): DecoratorState {
    if ds.disposed then ds
    else ds.(storeDisposed := true, calls := ds.calls + [InnerDispose], disposed := true)
  }

  /** Disposing twice is disposing once, and the inner provider is disposed exactly once. */
  lemma DisposeIdempotent(ds: DecoratorState)
    requires !ds.disposed
    ensures DisposeSpec(DisposeSpec(ds)) == DisposeSpec(ds)
    ensures DisposeSpec(ds).disposed && DisposeSpec(ds).storeDisposed
    ensures multiset(DisposeSpec(ds).calls)[InnerDispose] == multiset(ds.calls)[InnerDispose] + 1
  {
    assert DisposeSpec(ds).calls == ds.calls + [InnerDispose];
  }

  // ---------------------------------------------------------------------------
  // The objects

  /** An in-memory stream: its bytes, its position and the operations it received. */
  class SeedStore {
    const capabilities: Capabilities
    var contents: seq<byte>
    var position: nat
    var ops: seq<StreamOp>
    var disposed: bool

    ghost predicate Valid()
      reads this
    {
      StoreValid(State())
    }

    ghost function State(): StoreState
      reads this
    {
      StoreState(contents, position, ops)
    }

    constructor (capabilities: Capabilities, contents: seq<byte>)
      ensures Valid() && State() == StoreState(contents, 0, [])
      ensures this.capabilities == capabilities && !disposed
    {
      this.capabilities := capabilities;
      this.contents := contents;
      position := 0;
      ops := [];
      disposed := false;
    }

    function Length(): (r: nat)
      reads this
      ensures r == |State().contents|
    {
      |contents|
    }

    /** `Read(buffer, 0, count)`: copies what lies between the position and the end, up to `count` bytes. */
    method Read(buffer: array<byte>, count: nat) returns (n: nat)
      requires Valid() && count <= buffer.Length
      modifies this, buffer
      ensures Valid() && disposed == old(disposed)
      ensures var (read, st) := ReadBytes(old(State()), count);
        && State() == st
        && n == st.position - old(position)
        && buffer[..n] == read[..n]
        && buffer[n..] == old(buffer[n..])
    {
      n := Min(count, |contents| - position);
      ghost var read := ReadBytes(State(), count).0;
      ArrayCopy(contents[position..position + n], buffer, 0);
      assert read[..n] == contents[position..position + n];
      position := position + n;
      ops := ops + [ReadOp(count)];
    }

    method SeekToStart()
      modifies this
      ensures Valid() && State() == SeekTo(old(State()), 0) && disposed == old(disposed)
    {
      position := 0;
      ops := ops + [SeekOp(0)];
    }

    /** `Write(data, 0, data.Length)` at the position. */
    method Write(data: array<byte>)
      requires Valid()
      modifies this
      ensures Valid() && State() == Written(old(State()), data[..]) && disposed == old(disposed)
    {
      contents := Overwrite(contents, position, data[..]);
      OverwriteLayout(old(contents), position, data[..]);
      position := position + data.Length;
      ops := ops + [WriteOp(data.Length)];
    }

    method Flush()
      modifies this
      ensures State() == Flushed(old(State())) && disposed == old(disposed)
    {
      ops := ops + [FlushOp];
    }

    method Dispose()
      modifies this
      ensures State() == old(State()) && disposed
    {
      disposed := true;
    }
  }

  class SeedFileDecorator {
    const file: SeedStore
    var calls: seq<InnerCall>
    var timerArmed: bool
    var isDisposed: bool

    ghost predicate Valid()
      reads this, file
    {
      file.Valid()
    }

    ghost function State(): DecoratorState
      reads this, file
    {
      DecoratorState(file.State(), calls, timerArmed, file.disposed, isDisposed)
    }

    /** The constructor after its argument checks have passed; the timer is created stopped. */
    constructor (file: SeedStore)
      requires file.Valid() && !file.disposed
      requires ConstructorCheck(false, Some(file.capabilities)) == Pass
      ensures Valid() && this.file == file && State() == Created(file.State())
    {
      this.file := file;
      calls := [];
      timerArmed := false;
      isDisposed := false;
    }

    /** `new SeedFileDecorator(innerProvider, file)`, with its argument checks; `innerIsNull` stands for a null provider. */
    static method Create(innerIsNull: bool, file: SeedStore?) returns (r: Result<SeedFileDecorator, Error>)
      requires file != null ==> file.Valid() && !file.disposed
      ensures var caps := if file == null then None else Some(file.capabilities);
        r.Success? <==> ConstructorCheck(innerIsNull, caps) == Pass
      ensures r.Failure? ==> r.error == ConstructorCheck(innerIsNull, if file == null then None else Some(file.capabilities)).error
      ensures r.Success? ==>
        fresh(r.value) && r.value.Valid() && r.value.file == file && r.value.State() == Created(file.State())
    {
      var check := ConstructorCheck(innerIsNull, if file == null then None else Some(file.capabilities));
      if check.Fail? {
        return Failure(check.error);
      }
      var decorator := new SeedFileDecorator(file);
      r := Success(decorator);
    }

    /**
     * `InitializePRNG(token)`; `cancelled` is the token's state when the lock
     * is requested and `answers` are the inner provider's.
     */
    method InitializePRNG(cancelled: bool, answers: Answers) returns (outcome: Outcome<Error>)
      requires Valid() && Fills(answers.draw, SeedFileLength)
      modifies this, file
      ensures Valid()
      ensures (outcome, State()) == Initialize(old(State()), cancelled, answers)
    {
      if cancelled {
        return Fail(OperationCanceled);
      }
      var loaded := LoadSeedFromFile(answers);
      if loaded.Fail? {
        return Fail(Fortuna(loaded.error));
      }
      calls := calls + [InnerGetBytes(SeedFileLength)];
      if answers.draw.Failure? {
        return Fail(Fortuna(answers.draw.error));
      }
      var seed := new byte[SeedFileLength](i requires 0 <= i < SeedFileLength => answers.draw.value[i]);
      assert seed[..] == answers.draw.value;
      UpdateFile(seed);
      timerArmed := true;
      outcome := Pass;
    }

    /** Reads the stored seed and reseeds from it, or lets the inner provider wait for entropy. */
    method LoadSeedFromFile(answers: Answers) returns (loaded: Outcome<Error>)
      requires Valid()
      modifies this, file
      ensures Valid()
      ensures (loaded, State()) == LoadSeed(old(State()), answers)
    {
      if file.Length() == SeedFileLength {
        var buffer := new byte[SeedFileLength](_ => 0);
        var _ := file.Read(buffer, SeedFileLength);
        assert buffer[..] == ReadBytes(old(file.State()), SeedFileLength).0;
        calls := calls + [InnerReseed(buffer[..])];
        loaded := answers.reseed;
      } else {
        calls := calls + [InnerInitialize];
        loaded := answers.initialize;
      }
    }

    /** `UpdateSeedFile(file, seed)`. */
    method UpdateFile(seed: array<byte>)
      requires Valid()
      modifies file
      ensures Valid() && file.State() == UpdateSeedFile(old(file.State()), seed[..])
      ensures file.disposed == old(file.disposed)
    {
      file.SeekToStart();
      file.Write(seed);
      file.Flush();
    }

    /** `GetBytes(data)`, with `answer` the inner provider's. */
    method GetBytes(data: array<byte>, answer: Result<seq<byte>, Error>) returns (outcome: Outcome<Error>)
      requires Fills(answer, data.Length)
      modifies this, data
      ensures State() == GetBytesSpec(old(State()), data.Length, answer).1
      ensures outcome == GetBytesSpec(old(State()), data.Length, answer).0.ToOutcome()
      ensures data[..] == GetBytesSpec(old(State()), data.Length, answer).0.GetOr(old(data[..]))
    {
      calls := calls + [InnerGetBytes(data.Length)];
      if answer.Failure? {
        return Fail(answer.error);
      }
      forall i | 0 <= i < data.Length {
        data[i] := answer.value[i];
      }
      assert data[..] == answer.value;
      outcome := Pass;
    }

    method Dispose()
      modifies this, file
      ensures State() == DisposeSpec(old(State()))
    {
      if isDisposed {
        return;
      }
      file.Dispose();
      calls := calls + [InnerDispose];
      isDisposed := true;
    }
  }
}
