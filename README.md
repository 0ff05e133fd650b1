# Fortuna in Dafny

This project models the Fortuna random number generator of the nerdbot
repository. It covers these parts:

- **Pools** (`pool.dfy`, module `EntropyPool`). A pool keeps the SHA-256
  digest of the last event it received and a running count of bytes added.
- **Accumulator** (`accumulator.dfy`, module `Accumulator`). It holds 32
  pools. It gives each incoming entropy event to the next pool in turn
  (round robin). It reports "enough entropy" once pool 0 holds more than
  64 bytes. On the `r`-th request it drains pool `i` exactly when `2^i`
  divides `r`, and lays the pool digests side by side in a 1024-byte seed.
- **Generator** (`generator.dfy`, module `Generator`). AES in counter mode
  under a 32-byte key. It produces at most 16 KiB per request and takes a
  new key after every request. Reseeding sets the key to
  `SHA256(key ‖ seed)` and advances the counter.
- **Provider** (`provider.dfy`, module `Provider`). It ties the generator
  to the accumulator. It waits at start-up until pool 0 is full. Before
  serving bytes it reseeds, if the pools are ready and more than 100 ms have
  passed since the last reseed. It refuses to serve until it has reseeded
  once.
- **`RandomNumber` extension** (`sampler.dfy`, module `Sampler`). It draws
  a number below a bound by rejection sampling over the provider's bytes.
- **Seed-file decorator** (`seedfile.dfy`, module `SeedFile`). It keeps a
  64-byte seed in a stream, so a restart can reseed at once instead of
  waiting for entropy.

`primitives.dfy` declares the cryptographic primitives and the exception
kinds. `wrappers.dfy` holds the `Option`, `Result` and `Outcome` types.

The primitives are parameters of type `Primitives`:
- SHA-256;
- one AES block encryption;
- the little-endian 16-byte counter encoding.

Every stateful class of the source becomes a Dafny class with the same
fields. Each method is proved equal to a pure function of its old state:
`AddEvent`, `GetRandomData`, `Blocks`, `Bytes`, `GetBytesSpec`,
`Initialize`, `Sample`. The lemmas state what those functions promise.

## Model

All source paths are relative to the repository root.

| member | source | states |
|---|---|---|
| EntropyPool.AddEvent | Nerdbot/Utilities/Fortuna/Accumulator/Pool.cs:65-81 | An event is refused with `ArgumentOutOfRange` exactly when its data is longer than 32 bytes or its source is outside 0..255. Otherwise the pool grows by the data length plus 2. Its digest becomes SHA-256 of `[source, length] ‖ data`. |
| EntropyPool.Read | Nerdbot/Utilities/Fortuna/Accumulator/Pool.cs:83-95 | Reading returns the current digest (none if no event was ever added). It keeps the digest and resets the size to 0. |
| EntropyPool.AddEventForgetsHistory | Nerdbot/Utilities/Fortuna/Accumulator/Pool.cs:73-75 | The digest after an event depends only on that event, not on earlier ones. Any two pools reach the same digest. |
| EntropyPool.ReadTwice | Nerdbot/Utilities/Fortuna/Accumulator/Pool.cs:83-95 | A second read returns the same digest and leaves the pool as the first read did. |
| EntropyPool.Pool.constructor | Nerdbot/Utilities/Fortuna/Accumulator/Pool.cs:36-42 | A new pool has no digest and size 0. |
| EntropyPool.Pool.AddEventData | Nerdbot/Utilities/Fortuna/Accumulator/Pool.cs:65-81 | The method's outcome and new state are those of `AddEvent`. A refused event leaves the pool unchanged. |
| EntropyPool.Pool.ReadFromPool | Nerdbot/Utilities/Fortuna/Accumulator/Pool.cs:83-95 | The method returns and leaves what `Read` specifies. |
| Accumulator.Initial | Nerdbot/Utilities/Fortuna/Accumulator/FortunaAccumulator.cs:52-64 | The starting state has 32 empty pools and zero counters, and is well formed. |
| Accumulator.EnoughEntropy | Nerdbot/Utilities/Fortuna/Accumulator/FortunaAccumulator.cs:50 | `HasEnoughEntropy` on a value: true exactly when pool 0 has been fed more than 64 bytes since it was last read. The other pools play no part. |
| Accumulator.Deliver | Nerdbot/Utilities/Fortuna/Accumulator/FortunaAccumulator.cs:118-125 | Delivering an event keeps the 32 pools. |
| Accumulator.DeliverAll | Nerdbot/Utilities/Fortuna/Accumulator/FortunaAccumulator.cs:118-125 | Delivering a sequence of events keeps the 32 pools. |
| Accumulator.PoolAfter | Nerdbot/Utilities/Fortuna/Accumulator/FortunaAccumulator.cs:118-125 | Reference definition of one pool under round robin. Pool `i` is offered, in order, exactly the events of the run whose running index `start + k` is `i` mod 32. A refused event leaves the pool as it was. It does not use `Deliver`; `RoundRobin` proves the two agree. |
| Accumulator.RoundRobin | Nerdbot/Utilities/Fortuna/Accumulator/FortunaAccumulator.cs:118-125 | After a run of events, the running counter has advanced by their number and the request counter is unchanged. Each pool `i` has received exactly the events whose running index is `i` mod 32, in order. |
| Accumulator.DeliverAllAppend | Nerdbot/Utilities/Fortuna/Accumulator/FortunaAccumulator.cs:118-125 | Delivering two runs of events one after the other is the same as delivering them joined. |
| Accumulator.DrainCountFrom | Nerdbot/Utilities/Fortuna/Accumulator/FortunaAccumulator.cs:77-83 | Counting from pool `i`, the loop stops at the first pool `j >= i` with `r mod 2^j != 0`, or at 32. The result lies between `i` and 32. |
| Accumulator.DrainCount | Nerdbot/Utilities/Fortuna/Accumulator/FortunaAccumulator.cs:77-83 | Between 1 and 32 pools are drained per request. |
| Accumulator.FirstNull | Nerdbot/Utilities/Fortuna/Accumulator/FortunaAccumulator.cs:85-87 | Returns the first pool below `k` that has no digest, or `k` when there is none. |
| Accumulator.DrainSizes | Nerdbot/Utilities/Fortuna/Accumulator/FortunaAccumulator.cs:85 | Exactly the first `m` pools are read (their sizes reset). The others are unchanged. |
| Accumulator.Digests | Nerdbot/Utilities/Fortuna/Accumulator/FortunaAccumulator.cs:89 | `k` digests laid side by side take `32·k` bytes. |
| Accumulator.Drain | Nerdbot/Utilities/Fortuna/Accumulator/FortunaAccumulator.cs:77-91 | The drain loop on values, for request `r` with `k = DrainCount(r)` scheduled pools. If some scheduled pool `j` has no digest, the drain fails with `NullReference` after pools `0..j` were read. Otherwise it yields the `k` digests side by side, then zeros up to 1024 bytes, and pools `0..k-1` are read. |
| Accumulator.GetRandomData | Nerdbot/Utilities/Fortuna/Accumulator/FortunaAccumulator.cs:66-94 | A request keeps the state well formed and never changes the running counter. |
| Accumulator.DrainHitsNull | Nerdbot/Utilities/Fortuna/Accumulator/FortunaAccumulator.cs:85-87 | When a scheduled pool has no digest, the request fails with `NullReference`. The pools up to and including that one have been read. |
| Accumulator.DrainDrains | Nerdbot/Utilities/Fortuna/Accumulator/FortunaAccumulator.cs:77-91 | When every scheduled pool has a digest, the request yields the seed buffer filled with them. Exactly the scheduled pools are read. |
| Accumulator.Filled | Nerdbot/Utilities/Fortuna/Accumulator/FortunaAccumulator.cs:71-75 | The seed buffer is always 32·32 bytes long. |
| Accumulator.DrainStart | Nerdbot/Utilities/Fortuna/Accumulator/FortunaAccumulator.cs:71-75 | Before the loop the buffer is all zeros. |
| Accumulator.DrainContinues | Nerdbot/Utilities/Fortuna/Accumulator/FortunaAccumulator.cs:77-91 | A scheduled pool that holds a digest extends the drain by one step. |
| Accumulator.DrainSizesStep | Nerdbot/Utilities/Fortuna/Accumulator/FortunaAccumulator.cs:85 | Reading pool `k` after the first `k` gives the first `k+1` read. |
| Accumulator.PlaceDigest | Nerdbot/Utilities/Fortuna/Accumulator/FortunaAccumulator.cs:89 | Copying digest `k` into the buffer at offset `32·k` gives the buffer filled with `k+1` digests. |
| Accumulator.DrainCountReaches | Nerdbot/Utilities/Fortuna/Accumulator/FortunaAccumulator.cs:79-83 | If `2^i` divides the request number, then the loop goes past pool `i`. |
| Accumulator.DrainCountStops | Nerdbot/Utilities/Fortuna/Accumulator/FortunaAccumulator.cs:79-83 | If the loop goes past pool `i`, then `2^i` divides the request number. |
| Accumulator.DrainScheduleIff | Nerdbot/Utilities/Fortuna/Accumulator/FortunaAccumulator.cs:77-83 | Pool `i` is drained on request `r` if and only if `2^i` divides `r` (the Fortuna schedule). |
| Accumulator.FirstRequestDrainsAll | Nerdbot/Utilities/Fortuna/Accumulator/FortunaAccumulator.cs:73-83 | Request 0 drains all 32 pools. |
| Accumulator.DigestsAt | Nerdbot/Utilities/Fortuna/Accumulator/FortunaAccumulator.cs:89 | Byte `32·i+j` of the laid-out digests is byte `j` of pool `i`'s digest. |
| Accumulator.DrainedPools | Nerdbot/Utilities/Fortuna/Accumulator/FortunaAccumulator.cs:66-94 | Without enough entropy a request fails with `InvalidOperation` and changes nothing. Otherwise it counts one more request. Every digest is kept, and a successful request has reset exactly the scheduled pools. |
| Accumulator.SeedLayout | Nerdbot/Utilities/Fortuna/Accumulator/FortunaAccumulator.cs:71-91 | A seed is 1024 bytes. Slot `i` holds pool `i`'s digest when `2^i` divides the request number, and zeros otherwise. |
| Accumulator.DrainSpendsEntropy | Nerdbot/Utilities/Fortuna/Accumulator/FortunaAccumulator.cs:50 | After a successful request pool 0 no longer has enough entropy. |
| Accumulator.InitialFed | Nerdbot/Utilities/Fortuna/Accumulator/FortunaAccumulator.cs:52-64 | The initial state satisfies `Fed`: every pool whose turn has come holds a digest, and pool 0's size is at most 34 bytes per turn it has had. |
| Accumulator.DeliverKeepsFed | Nerdbot/Utilities/Fortuna/Accumulator/FortunaAccumulator.cs:118-125 | Delivering a well-formed event keeps `Fed`. |
| Accumulator.GetRandomDataKeepsFed | Nerdbot/Utilities/Fortuna/Accumulator/FortunaAccumulator.cs:66-94 | Requests keep `Fed`. |
| Accumulator.FedDrainSucceeds | Nerdbot/Utilities/Fortuna/Accumulator/FortunaAccumulator.cs:68-91 | In a `Fed` accumulator, once pool 0 has enough entropy every pool has had its turn, so the request succeeds. |
| Accumulator.NullPoolFailsFirstRequest | Nerdbot/Utilities/Fortuna/Accumulator/FortunaAccumulator.cs:73-91 | On request 0, one pool that never received an event makes the request fail with `NullReference`, even though pool 0 is full. |
| Accumulator.FortunaAccumulator.PoolStates | Nerdbot/Utilities/Fortuna/Accumulator/FortunaAccumulator.cs:42 | The abstract pool list has one entry per pool object. |
| Accumulator.FortunaAccumulator.HasEnoughEntropy | Nerdbot/Utilities/Fortuna/Accumulator/FortunaAccumulator.cs:50 | True exactly when the running size of pool object 0 is above 64 bytes. |
| Accumulator.FortunaAccumulator.constructor | Nerdbot/Utilities/Fortuna/Accumulator/FortunaAccumulator.cs:52-64 | Builds 32 fresh pools in the initial state, with no source registered. |
| Accumulator.FortunaAccumulator.RegisterEntropySources | Nerdbot/Utilities/Fortuna/Accumulator/FortunaAccumulator.cs:106-116 | Providers get source numbers `sourceCount, sourceCount+1, …`. Registration fails with `InvalidOperation` exactly when a provider would receive a number above 255. The failing provider still consumes a number. |
| Accumulator.FortunaAccumulator.AccumulateEntropy | Nerdbot/Utilities/Fortuna/Accumulator/FortunaAccumulator.cs:118-125 | The method's outcome and new state are those of `Deliver`. |
| Accumulator.FortunaAccumulator.GetRandomDataFromPools | Nerdbot/Utilities/Fortuna/Accumulator/FortunaAccumulator.cs:66-94 | The method's result and new state are those of `GetRandomData`. |
| Accumulator.FortunaAccumulator.DrainPools | Nerdbot/Utilities/Fortuna/Accumulator/FortunaAccumulator.cs:77-91 | The loop produces what `Drain` specifies, for the request number it is given. |
| Accumulator.FortunaAccumulator.DrainPool | Nerdbot/Utilities/Fortuna/Accumulator/FortunaAccumulator.cs:85-89 | One loop step reads pool `i`. It either stops with `NullReference` or extends the drain by that pool. |
| Accumulator.FortunaAccumulator.CopyDigest | Nerdbot/Utilities/Fortuna/Accumulator/FortunaAccumulator.cs:89 | `CopyTo` of digest `i` at offset `32·i`. It turns the buffer filled with the first `i` digests into the buffer filled with the first `i+1`. |
| Accumulator.FortunaAccumulator.Dispose | Nerdbot/Utilities/Fortuna/Accumulator/FortunaAccumulator.cs:132-148 | Afterwards the accumulator is disposed. |
| Generator.GetNewKey | Nerdbot/Utilities/Fortuna/Generator/FortunaGenerator.cs:131-136 | The new key is the first 32 bytes of the generated data. |
| Generator.KeyStream | Nerdbot/Utilities/Fortuna/Generator/FortunaGenerator.cs:97-109 | `n` counter blocks give `16·n` bytes. |
| Generator.Buffer | Nerdbot/Utilities/Fortuna/Generator/FortunaGenerator.cs:84-105 | The block buffer is always 16 KiB. |
| Generator.NumBlocks | Nerdbot/Utilities/Fortuna/Generator/FortunaGenerator.cs:124 | The block count is the least number of 16-byte blocks that covers the request. |
| Generator.Init | Nerdbot/Utilities/Fortuna/Generator/FortunaGenerator.cs:52-65 | A new generator is seeded with a 32-byte key. |
| Generator.Reseeded | Nerdbot/Utilities/Fortuna/Generator/FortunaGenerator.cs:67-80 | Reseeding sets the key to SHA-256 of old key ‖ seed and advances the counter by one. |
| Generator.Blocks | Nerdbot/Utilities/Fortuna/Generator/FortunaGenerator.cs:82-113 | Block generation yields a 16 KiB buffer and keeps the key. The counter never goes back. |
| Generator.Bytes | Nerdbot/Utilities/Fortuna/Generator/FortunaGenerator.cs:116-129 | On success the output has exactly the requested length and the new key is 32 bytes. On failure the key is unchanged. |
| Generator.BytesUnfold | Nerdbot/Utilities/Fortuna/Generator/FortunaGenerator.cs:116-129 | A request is output blocks followed by two more blocks for the next key. |
| Generator.KeyStreamBlock | Nerdbot/Utilities/Fortuna/Generator/FortunaGenerator.cs:99-105 | Block `i` of the stream is AES of the key on counter `c0+i`. |
| Generator.KeyStreamByte | Nerdbot/Utilities/Fortuna/Generator/FortunaGenerator.cs:99-105 | Byte `j` of the stream is byte `j mod 16` of the AES block for counter `c0 + j/16`. |
| Generator.KeyStreamTwo | Nerdbot/Utilities/Fortuna/Generator/FortunaGenerator.cs:128 | The next key's two blocks are AES on two consecutive counters. |
| Generator.KeyStreamPrefix | Nerdbot/Utilities/Fortuna/Generator/FortunaGenerator.cs:97-109 | Fewer blocks give a prefix of more blocks. |
| Generator.KeyStreamAppend | Nerdbot/Utilities/Fortuna/Generator/FortunaGenerator.cs:97-109 | `n+m` blocks are `n` blocks followed by `m` blocks from counter `c0+n`. |
| Generator.BytesOutcome | Nerdbot/Utilities/Fortuna/Generator/FortunaGenerator.cs:82-129 | A request succeeds if and only if the generator is seeded and asks for at most 16 KiB. An unseeded generator, or a request of 2^20 bytes or more, fails with `InvalidOperation` and changes nothing. Requests between those sizes fail with `Argument`. |
| Generator.BytesSuccess | Nerdbot/Utilities/Fortuna/Generator/FortunaGenerator.cs:116-129 | A successful request returns the first `length` bytes of the key stream. The counter advances by the output blocks plus two. |
| Generator.BytesByte | Nerdbot/Utilities/Fortuna/Generator/FortunaGenerator.cs:97-128 | Every output byte `j` is byte `j mod 16` of AES of the old key on counter `counter + j/16`. |
| Generator.BytesByteAt | Nerdbot/Utilities/Fortuna/Generator/FortunaGenerator.cs:97-128 | The same, for a single index. |
| Generator.BytesKey | Nerdbot/Utilities/Fortuna/Generator/FortunaGenerator.cs:124-136 | After a request the new key is the two AES blocks on the counters right after the output's. |
| Generator.OutputPrefix | Nerdbot/Utilities/Fortuna/Generator/FortunaGenerator.cs:97-125 | A shorter request's bytes are a prefix of a longer request's bytes from the same key and counter. |
| Generator.BytesPrefix | Nerdbot/Utilities/Fortuna/Generator/FortunaGenerator.cs:116-129 | From the same state, a shorter successful request returns a prefix of a longer one. |
| Generator.SeededOutput | Nerdbot/Utilities/Fortuna/Generator/FortunaGenerator.cs:52-129 | A freshly built generator serves any request up to 16 KiB, from counter 1 under the hashed seed. |
| Generator.ReseedSeeds | Nerdbot/Utilities/Fortuna/Generator/FortunaGenerator.cs:67-80 | After a reseed the generator is seeded and can produce the blocks of a new key. |
| Generator.OversizedRequestFails | Nerdbot/Utilities/Fortuna/Generator/FortunaGenerator.cs:84-125 | As written, a request of 16 KiB + 1 bytes passes the 2^20 size check and still fails, with `Argument`. |
| Generator.BlocksSized | Nerdbot/Utilities/Fortuna/Generator/FortunaGenerator.cs:82-113 | Corrected block generation sizes its buffer to the blocks asked for and keeps the key. |
| Generator.BytesSized | Nerdbot/Utilities/Fortuna/Generator/FortunaGenerator.cs:116-128 | The corrected `GenerateBytes`. It makes the same 2^20 check and the same rekey from two blocks as `Bytes`, but draws its blocks from the buffer sized to the request. `BytesSizedOutcome` states what it delivers. |
| Generator.BytesSizedOutcome | Nerdbot/Utilities/Fortuna/Generator/FortunaGenerator.cs:116-129 | With a buffer sized to the request, every request below 2^20 bytes succeeds on a seeded generator, with the right length. Wherever the original succeeds, it agrees with it. |
| Generator.FortunaGenerator.constructor | Nerdbot/Utilities/Fortuna/Generator/FortunaGenerator.cs:52-65 | The state is `Init` of the seed, or of the tick-count bytes when no seed is given. |
| Generator.FortunaGenerator.Reseed | Nerdbot/Utilities/Fortuna/Generator/FortunaGenerator.cs:67-80 | The new state is `Reseeded` of the old one. |
| Generator.FortunaGenerator.GenerateBlocks | Nerdbot/Utilities/Fortuna/Generator/FortunaGenerator.cs:82-113 | The method's result and new state are those of `Blocks`. |
| Generator.FortunaGenerator.FillBlocks | Nerdbot/Utilities/Fortuna/Generator/FortunaGenerator.cs:97-109 | The loop fails exactly when more blocks are asked for than fit in 16 KiB. Otherwise it fills the buffer with the key stream and advances the counter by the number of blocks. |
| Generator.FortunaGenerator.StoreBlock | Nerdbot/Utilities/Fortuna/Generator/FortunaGenerator.cs:99-107 | One loop step appends the next key-stream block and advances the counter. |
| Generator.FortunaGenerator.GenerateBytes | Nerdbot/Utilities/Fortuna/Generator/FortunaGenerator.cs:116-129 | The caller's array receives `Bytes`'s output, or is left untouched on failure. The state becomes `Bytes`'s. |
| Generator.SameSeedSameData | Nerdbot/Utilities/Fortuna/Generator/FortunaGenerator.cs:52-65 | Two generators built from the same seed produce the same bytes, whatever the tick count. |
| Provider.Fresh | Nerdbot/Utilities/Fortuna/PRNGFortunaProvider.cs:43-52 | A new provider has never reseeded and its last reseed time is the minimum time. |
| Provider.ReseedDue | Nerdbot/Utilities/Fortuna/PRNGFortunaProvider.cs:80-82 | A reseed is due exactly when pool 0 has enough entropy and strictly more than 100 ms have passed since the last reseed. |
| Provider.ReseedWith | Nerdbot/Utilities/Fortuna/PRNGFortunaProvider.cs:97-107 | A reseed counts one more reseed, records the time and rekeys the generator with the seed. |
| Provider.MaybeReseed | Nerdbot/Utilities/Fortuna/PRNGFortunaProvider.cs:80-86 | The reseed step keeps the accumulator well formed and its running counter unchanged. |
| Provider.DueReseed | Nerdbot/Utilities/Fortuna/PRNGFortunaProvider.cs:82-85 | The same holds for a reseed that is due. |
| Provider.GetBytesSpec | Nerdbot/Utilities/Fortuna/PRNGFortunaProvider.cs:78-95 | Served bytes have the requested length, and only after at least one reseed. |
| Provider.Wait | Nerdbot/Utilities/Fortuna/PRNGFortunaProvider.cs:59-67 | Waiting ends `Initialized` exactly when pool 0 has enough entropy. It ends `Canceled` only after a poll saw the token cancelled. If any poll sees the token cancelled, the wait does not end `StillWaiting`: it returns or throws `OperationCanceled` by then. |
| Provider.Arrivals | Nerdbot/Utilities/Fortuna/PRNGFortunaProvider.cs:62-66 | The events the entropy sources deliver while the loop polls: those of each poll, poll after poll, in order. |
| Provider.WaitTurns | Nerdbot/Utilities/Fortuna/PRNGFortunaProvider.cs:62-66 | The loop sleeps at most once per poll. |
| Provider.ArrivalsStep | Nerdbot/Utilities/Fortuna/PRNGFortunaProvider.cs:62-66 | The arrivals of the first `k+1` polls are the first poll's, then those of the next `k`. |
| Provider.WaitTrace | Nerdbot/Utilities/Fortuna/PRNGFortunaProvider.cs:59-67 | The wait leaves the accumulator with exactly the events that arrived during the polls it slept through, delivered in order. It ends `StillWaiting` if and only if it used every poll and pool 0 is still short. It ends `Canceled` only at a poll that saw the token cancelled. |
| Provider.WaitSleepsWhileShort | Nerdbot/Utilities/Fortuna/PRNGFortunaProvider.cs:62-66 | Before each poll the loop slept through, pool 0 was short and the token was not cancelled. |
| Provider.ShortBeforePoll | Nerdbot/Utilities/Fortuna/PRNGFortunaProvider.cs:62-66 | The state before poll `i+1` is the state before poll `i` of the remaining polls, after the first poll's arrivals. So pool 0 was short there too. |
| Provider.ReseedIff | Nerdbot/Utilities/Fortuna/PRNGFortunaProvider.cs:80-86 | The reseed step counts a reseed if and only if the pools are ready and more than 100 ms have passed. Otherwise it changes nothing. |
| Provider.UnseededRefuses | Nerdbot/Utilities/Fortuna/PRNGFortunaProvider.cs:88-91 | With no reseed so far and none due, `GetBytes` fails with `InvalidOperation` and changes nothing. |
| Provider.ReseededServes | Nerdbot/Utilities/Fortuna/PRNGFortunaProvider.cs:80-94 | When the provider has reseeded before, or reseeds now, a fed accumulator and a seeded generator serve any request up to 16 KiB. The bytes are the generator's output after the reseed step. |
| Provider.FirstReadyCallReseeds | Nerdbot/Utilities/Fortuna/PRNGFortunaProvider.cs:43-94 | The first call with ready pools reseeds, at the time of the call, and serves. |
| Provider.OneReseedPerInterval | Nerdbot/Utilities/Fortuna/PRNGFortunaProvider.cs:80-86 | After a reseed, none is due again until 100 ms have passed. |
| Provider.ReseedSpendsReadiness | Nerdbot/Utilities/Fortuna/PRNGFortunaProvider.cs:80-86 | After a reseed, none is due again until pool 0 has refilled. |
| Provider.GetBytesKeepsFed | Nerdbot/Utilities/Fortuna/PRNGFortunaProvider.cs:78-95 | `GetBytes` keeps `Fed`. |
| Provider.WaitKeepsFed | Nerdbot/Utilities/Fortuna/PRNGFortunaProvider.cs:59-67 | Waiting for entropy with well-formed arrivals keeps `Fed`. |
| Provider.DeliverAllKeepsFed | Nerdbot/Utilities/Fortuna/Accumulator/FortunaAccumulator.cs:118-125 | Delivering well-formed events keeps `Fed`. |
| Provider.InitializedThenServed | Nerdbot/Utilities/Fortuna/PRNGFortunaProvider.cs:59-94 | After a wait that ends `Initialized`, with more than 100 ms since the last reseed, the next `GetBytes` reseeds once and serves. |
| Provider.WaitKeepsWellFormed | Nerdbot/Utilities/Fortuna/PRNGFortunaProvider.cs:59-67 | Waiting keeps the accumulator well formed. |
| Provider.DeliverAllKeepsWellFormed | Nerdbot/Utilities/Fortuna/Accumulator/FortunaAccumulator.cs:118-125 | Delivering events keeps the accumulator well formed. |
| Provider.DeliverKeepsWellFormed | Nerdbot/Utilities/Fortuna/Accumulator/FortunaAccumulator.cs:118-125 | Delivering one event keeps the accumulator well formed. |
| Provider.PRNGFortunaProvider.constructor | Nerdbot/Utilities/Fortuna/PRNGFortunaProvider.cs:46-52 | The provider starts in `Fresh` around the given generator and accumulator. |
| Provider.PRNGFortunaProvider.InitializePRNG | Nerdbot/Utilities/Fortuna/PRNGFortunaProvider.cs:59-67 | The result and the accumulator's new state are those of `Wait`. So a cancellation seen while pool 0 is short ends the call with `Canceled`, and the accumulator holds exactly the arrivals of the polls it slept through (`WaitTrace`). |
| Provider.PRNGFortunaProvider.DeliverArrivals | Nerdbot/Utilities/Fortuna/Accumulator/FortunaAccumulator.cs:118-125 | The events that arrive between two polls are delivered in order, as `DeliverAll` specifies. |
| Provider.PRNGFortunaProvider.GetBytes | Nerdbot/Utilities/Fortuna/PRNGFortunaProvider.cs:78-95 | The outcome, the new state and the caller's array are those of `GetBytesSpec`. Of the provider's own fields, only the reseed count and time can change, so the disposal flag is kept. |
| Provider.PRNGFortunaProvider.ReseedIfDue | Nerdbot/Utilities/Fortuna/PRNGFortunaProvider.cs:80-86 | The outcome and new state are those of `MaybeReseed`. The disposal flag is kept. |
| Provider.PRNGFortunaProvider.ReseedFromPools | Nerdbot/Utilities/Fortuna/PRNGFortunaProvider.cs:82-85 | The outcome and new state are those of `DueReseed`. The disposal flag is kept. |
| Provider.PRNGFortunaProvider.Reseed | Nerdbot/Utilities/Fortuna/PRNGFortunaProvider.cs:97-107 | The generator is reseeded, the reseed is counted and the time recorded. The disposal flag is kept. |
| Provider.PRNGFortunaProvider.Dispose | Nerdbot/Utilities/Fortuna/PRNGFortunaProvider.cs:110-119 | The first dispose disposes the accumulator. Later ones do nothing. |
| Sampler.LittleEndian | Nerdbot/Utilities/Fortuna/Extensions/IPRNGFortunaProviderExtensions.cs:71-76 | `n` bytes encode a number below `2^(8n)`. |
| Sampler.Encode | Nerdbot/Utilities/Fortuna/Extensions/IPRNGFortunaProviderExtensions.cs:71-76 | Any number has an `n`-byte little-endian encoding that decodes back to it. |
| Sampler.PowUpperBound | Nerdbot/Utilities/Fortuna/Extensions/IPRNGFortunaProviderExtensions.cs:82-90 | The result is the least exponent at or above `pow` whose power of two reaches `count`, or 1 for counts below 2. |
| Sampler.NumBits | Nerdbot/Utilities/Fortuna/Extensions/IPRNGFortunaProviderExtensions.cs:43 | The bit count is between 1 and 31. For bounds of 2 or more, it is the least `b` with `2^b ≥ upperBound`. |
| Sampler.PowUpperBoundFitsInt | Nerdbot/Utilities/Fortuna/Extensions/IPRNGFortunaProviderExtensions.cs:82-90 | For any 32-bit count the exponent found is at most 31, so the bit count fits an int. |
| Sampler.NumBytes | Nerdbot/Utilities/Fortuna/Extensions/IPRNGFortunaProviderExtensions.cs:44 | The byte count is the least number of bytes that holds the bits. |
| Sampler.Offset | Nerdbot/Utilities/Fortuna/Extensions/IPRNGFortunaProviderExtensions.cs:47 | The shift as written: `8 - numBits mod (numBytes·8)`. `OffsetValue` and `OffsetShift` give its value. |
| Sampler.ShiftCount | Nerdbot/Utilities/Fortuna/Extensions/IPRNGFortunaProviderExtensions.cs:61-62 | The shift count C# actually uses: the low five bits of `offset`, so `offset mod 32`, also for negative offsets. It lies in 0..31. |
| Sampler.ClearExtraBits | Nerdbot/Utilities/Fortuna/Extensions/IPRNGFortunaProviderExtensions.cs:61-62 | The two shifts on the top byte: `(byte)((byte)(b << offset) >> offset)`, each shift truncated to a byte. |
| Sampler.ClearExtraBitsValue | Nerdbot/Utilities/Fortuna/Extensions/IPRNGFortunaProviderExtensions.cs:56-69 | The shift pair keeps the low `8 - shift` bits of the top byte, or clears it when the shift is 8 or more. |
| Sampler.OffsetShift | Nerdbot/Utilities/Fortuna/Extensions/IPRNGFortunaProviderExtensions.cs:47 | With fewer than 8 bits the shift is `8 - numBits`. With 8 or more it is at least 8, so the top byte is cleared. |
| Sampler.ShiftOfOffset | Nerdbot/Utilities/Fortuna/Extensions/IPRNGFortunaProviderExtensions.cs:47-69 | C# masks a shift count to 5 bits: an offset in 1..8 shifts by itself, and one in -23..-1 shifts by `offset + 32`. |
| Sampler.OffsetValue | Nerdbot/Utilities/Fortuna/Extensions/IPRNGFortunaProviderExtensions.cs:47 | The offset is 8 when the bits fill whole bytes and `8 - numBits` otherwise. |
| Sampler.NumBitsRange | Nerdbot/Utilities/Fortuna/Extensions/IPRNGFortunaProviderExtensions.cs:43 | Bounds up to 128 need at most 7 bits. Larger bounds need at least 8, and bounds 129..256 need exactly 8. |
| Sampler.ToInt32 | Nerdbot/Utilities/Fortuna/Extensions/IPRNGFortunaProviderExtensions.cs:76 | `BitConverter.ToInt32` of four little-endian bytes: their little-endian value read as a two's-complement 32-bit integer. |
| Sampler.Masked | Nerdbot/Utilities/Fortuna/Extensions/IPRNGFortunaProviderExtensions.cs:57-63 | The draw with its last byte (the top byte on a little-endian machine) cleared by the two shifts when the offset is not 0. With offset 0 the draw is unchanged. |
| Sampler.CandidateWith | Nerdbot/Utilities/Fortuna/Extensions/IPRNGFortunaProviderExtensions.cs:71-76 | The masked draw padded with zeros to four bytes, then converted by `ToInt32`. |
| Sampler.Candidate | Nerdbot/Utilities/Fortuna/Extensions/IPRNGFortunaProviderExtensions.cs:43-76 | The value one draw yields as written: `CandidateWith` under the offset `Offset(numBits, numBytes)` of the bound. |
| Sampler.CandidateWithValue | Nerdbot/Utilities/Fortuna/Extensions/IPRNGFortunaProviderExtensions.cs:71-76 | `BitConverter.ToInt32` of the masked bytes, padded to 4, is their little-endian value. |
| Sampler.CandidateTopCleared | Nerdbot/Utilities/Fortuna/Extensions/IPRNGFortunaProviderExtensions.cs:56-76 | When the shift clears the top byte, the candidate is the value of the lower bytes alone. |
| Sampler.CandidateLowBits | Nerdbot/Utilities/Fortuna/Extensions/IPRNGFortunaProviderExtensions.cs:56-76 | With one byte and a shift below 8, the candidate is that byte's low `8 - shift` bits. |
| Sampler.CandidateValue | Nerdbot/Utilities/Fortuna/Extensions/IPRNGFortunaProviderExtensions.cs:52-76 | A candidate is never negative and stays below `2^24`. Below 8 bits it is the first byte mod `2^numBits`. From 8 bits up it is the value of all bytes but the last. |
| Sampler.SmallBoundCandidate | Nerdbot/Utilities/Fortuna/Extensions/IPRNGFortunaProviderExtensions.cs:52-76 | For bounds up to 128 the candidate is the first byte mod `2^numBits`. |
| Sampler.LargeBoundCandidate | Nerdbot/Utilities/Fortuna/Extensions/IPRNGFortunaProviderExtensions.cs:52-76 | For larger bounds the candidate ignores the last byte drawn. |
| Sampler.Sample | Nerdbot/Utilities/Fortuna/Extensions/IPRNGFortunaProviderExtensions.cs:41-80 | A returned number is non-negative and below the bound. For bounds of 1 or less it is 0. |
| Sampler.RandomNumber | Nerdbot/Utilities/Fortuna/Extensions/IPRNGFortunaProviderExtensions.cs:41-80 | The rejection loop returns what `Sample` specifies for the same byte stream. |
| Sampler.SampleRejects | Nerdbot/Utilities/Fortuna/Extensions/IPRNGFortunaProviderExtensions.cs:77 | A candidate that is non-zero and not below the bound is discarded, and sampling restarts on the rest of the stream. |
| Sampler.SampleAccepts | Nerdbot/Utilities/Fortuna/Extensions/IPRNGFortunaProviderExtensions.cs:77-79 | A candidate that is zero or below the bound is returned, as its absolute value. |
| Sampler.DrawCandidate | Nerdbot/Utilities/Fortuna/Extensions/IPRNGFortunaProviderExtensions.cs:56-76 | The loop body leaves the masked bytes in the buffer and returns the candidate. |
| Sampler.CandidateOfMasked | Nerdbot/Utilities/Fortuna/Extensions/IPRNGFortunaProviderExtensions.cs:71-76 | The candidate is the 4-byte conversion of the masked bytes padded with zeros. |
| Sampler.SampleExhausted | Nerdbot/Utilities/Fortuna/Extensions/IPRNGFortunaProviderExtensions.cs:52-55 | A stream shorter than one draw yields nothing. |
| Sampler.SampleUnfold | Nerdbot/Utilities/Fortuna/Extensions/IPRNGFortunaProviderExtensions.cs:52-79 | Sampling is one draw, then either acceptance or sampling the rest. |
| Sampler.DrawMasked | Nerdbot/Utilities/Fortuna/Extensions/IPRNGFortunaProviderExtensions.cs:56-69 | Masking in place leaves the masked bytes. |
| Sampler.SmallBoundReachesEvery | Nerdbot/Utilities/Fortuna/Extensions/IPRNGFortunaProviderExtensions.cs:41-80 | For bounds 1..128, every value below the bound is returned by the one-byte draw holding it. |
| Sampler.WrittenCollapses | Nerdbot/Utilities/Fortuna/Extensions/IPRNGFortunaProviderExtensions.cs:47-79 | As written, every bound from 129 to 256 returns 0 whatever the bytes. |
| Sampler.WrittenCounterexample | Nerdbot/Utilities/Fortuna/Extensions/IPRNGFortunaProviderExtensions.cs:47-79 | With bound 200 and byte 1 the original returns 0. The corrected sampler returns 1. |
| Sampler.WrittenDropsTopByte | Nerdbot/Utilities/Fortuna/Extensions/IPRNGFortunaProviderExtensions.cs:47-79 | As written, a bound above 128 never yields a value that needs the last byte drawn. |
| Sampler.CandidateTruncated | Nerdbot/Utilities/Fortuna/Extensions/IPRNGFortunaProviderExtensions.cs:56-76 | With the intended shift, the candidate is the draw's value mod `2^bits`. |
| Sampler.CandidateWhole | Nerdbot/Utilities/Fortuna/Extensions/IPRNGFortunaProviderExtensions.cs:56-76 | When the bits fill whole bytes, the unshifted candidate is the draw's value mod `2^numBits`. |
| Sampler.FixedOffset | Nerdbot/Utilities/Fortuna/Extensions/IPRNGFortunaProviderExtensions.cs:47 | The corrected shift: the surplus bits of the top byte, `numBytes·8 - numBits`. |
| Sampler.CandidateFixed | Nerdbot/Utilities/Fortuna/Extensions/IPRNGFortunaProviderExtensions.cs:43-76 | The corrected candidate: `CandidateWith` under `FixedOffset` in place of `Offset`. |
| Sampler.CandidateFixedValue | Nerdbot/Utilities/Fortuna/Extensions/IPRNGFortunaProviderExtensions.cs:47-76 | The corrected candidate is exactly the draw's value mod `2^numBits`. |
| Sampler.SampleFixed | Nerdbot/Utilities/Fortuna/Extensions/IPRNGFortunaProviderExtensions.cs:41-80 | The corrected sampler returns a non-negative number below the bound, or 0 for bounds of 1 or less. |
| Sampler.DrawFor | Nerdbot/Utilities/Fortuna/Extensions/IPRNGFortunaProviderExtensions.cs:44 | Gives a draw of the right width that encodes a chosen value. |
| Sampler.FixedReachesEvery | Nerdbot/Utilities/Fortuna/Extensions/IPRNGFortunaProviderExtensions.cs:41-80 | For every positive bound, the corrected sampler returns each value below the bound for some draw. |
| Sampler.SmallBoundSameCandidate | Nerdbot/Utilities/Fortuna/Extensions/IPRNGFortunaProviderExtensions.cs:47-76 | Below 8 bits the corrected and original candidates agree. |
| Sampler.SampleFixedUnfold | Nerdbot/Utilities/Fortuna/Extensions/IPRNGFortunaProviderExtensions.cs:52-79 | The corrected sampler has the same draw-then-accept-or-retry structure. |
| Sampler.FixedAgreesOnSmallBounds | Nerdbot/Utilities/Fortuna/Extensions/IPRNGFortunaProviderExtensions.cs:41-80 | For bounds up to 128 the corrected sampler returns exactly what the original returns on every stream. |
| SeedFile.ConstructorCheck | Nerdbot/Utilities/Fortuna/Initialization/SeedFileDecorator.cs:48-50 | The constructor's argument checks: `ArgumentNull` for a null provider or stream, checked first. Then `Argument` for a stream that cannot read, write or seek. Otherwise the checks pass. |
| SeedFile.ConstructorAccepts | Nerdbot/Utilities/Fortuna/Initialization/SeedFileDecorator.cs:46-56 | A decorator is built if and only if the provider is present and the stream can read, write and seek. A missing argument raises `ArgumentNull`. A stream lacking a capability raises `Argument`. |
| SeedFile.Reopen | Nerdbot/Utilities/Fortuna/Initialization/SeedFileDecorator.cs:46-56 | A reopened store has the same bytes, at position 0. |
| SeedFile.ReadBytes | Nerdbot/Utilities/Fortuna/Initialization/SeedFileDecorator.cs:67-70 | A read fills a buffer of the asked size, keeps the bytes and moves the position by what was available. |
| SeedFile.OverwriteLayout | Nerdbot/Utilities/Fortuna/Initialization/SeedFileDecorator.cs:176-181 | A write keeps the bytes before the position, puts the data next and keeps any bytes beyond it. |
| SeedFile.UpdateSeedFile | Nerdbot/Utilities/Fortuna/Initialization/SeedFileDecorator.cs:176-181 | `UpdateSeedFile` on a store: seek to 0, write the seed, flush. `UpdateSeedFileWrites` states the resulting store. |
| SeedFile.UpdateSeedFileWrites | Nerdbot/Utilities/Fortuna/Initialization/SeedFileDecorator.cs:176-181 | Updating puts the seed at the start and keeps the tail of a longer store. It leaves the position after the seed and logs seek(0), write, flush. |
| SeedFile.LoadSeed | Nerdbot/Utilities/Fortuna/Initialization/SeedFileDecorator.cs:63-76 | A store of exactly 64 bytes is read from its current position into a 64-byte buffer. That buffer goes to the inner `Reseed`. A store of any other length is left alone, and the inner provider runs its own `InitializePRNG`. The inner provider's answer is the outcome. |
| SeedFile.Initialize | Nerdbot/Utilities/Fortuna/Initialization/SeedFileDecorator.cs:58-100 | Initialization keeps the store's position within its bytes. |
| SeedFile.StoredSeedReseeds | Nerdbot/Utilities/Fortuna/Initialization/SeedFileDecorator.cs:64-75 | A 64-byte store is read, and the first inner call is a reseed with the bytes read from the current position (zeros beyond the end). The inner provider is never told to initialize from entropy. |
| SeedFile.StoredSeedFromStart | Nerdbot/Utilities/Fortuna/Initialization/SeedFileDecorator.cs:67-70 | Read from position 0, the stored seed is the store's whole contents. |
| SeedFile.OtherLengthWaitsForEntropy | Nerdbot/Utilities/Fortuna/Initialization/SeedFileDecorator.cs:64-75 | A store of any other length makes the inner provider initialize from entropy. The decorator never reseeds it, and the store is never read. |
| SeedFile.InitializeSucceeds | Nerdbot/Utilities/Fortuna/Initialization/SeedFileDecorator.cs:58-100 | Initialization succeeds if and only if the token was not cancelled and the inner provider's load and draw succeed. Then the store starts with the 64 drawn bytes, written by seek, write and flush, and the refresh timer is armed. |
| SeedFile.FailuresAreWrapped | Nerdbot/Utilities/Fortuna/Initialization/SeedFileDecorator.cs:58-100 | A token cancelled up front fails with `OperationCanceled` and changes nothing. Any later failure is wrapped as a Fortuna exception around the inner error. It leaves the stored bytes and the timer as they were. |
| SeedFile.SavedSeedReusedOnRestart | Nerdbot/Utilities/Fortuna/Initialization/SeedFileDecorator.cs:64-82 | After a successful start-up from a store of at most 64 bytes, the next start-up reseeds the inner provider with exactly the bytes drawn. |
| SeedFile.SecondInitializeReseedsWithZeros | Nerdbot/Utilities/Fortuna/Initialization/SeedFileDecorator.cs:64-181 | The store is not rewound before it is read. So a second initialization on the same decorator reads at the end of the store and reseeds with 64 zero bytes. This records behaviour as written. It is not claimed as a defect, since the decorator is initialized once per start-up. |
| SeedFile.LongStoreNeverReused | Nerdbot/Utilities/Fortuna/Initialization/SeedFileDecorator.cs:64-181 | As written, a store longer than 64 bytes keeps its length, so every later start-up ignores it. |
| SeedFile.LongStoreExample | Nerdbot/Utilities/Fortuna/Initialization/SeedFileDecorator.cs:64-181 | A 100-byte store is passed over at two start-ups in a row. |
| SeedFile.InitializeTruncating | Nerdbot/Utilities/Fortuna/Initialization/SeedFileDecorator.cs:176-181 | The corrected update, which cuts the store to 64 bytes, keeps the position within the bytes. |
| SeedFile.TruncatingSeedReusedOnRestart | Nerdbot/Utilities/Fortuna/Initialization/SeedFileDecorator.cs:64-181 | With the store cut to 64 bytes, a successful start-up is reused by the next one whatever the store's old length. |
| SeedFile.GetBytesSpec | Nerdbot/Utilities/Fortuna/Initialization/SeedFileDecorator.cs:148-159 | `GetBytes`: one inner `GetBytes` call for the caller's length. The inner answer is returned unchanged, and nothing else in the decorator changes. |
| SeedFile.GetBytesPassesThrough | Nerdbot/Utilities/Fortuna/Initialization/SeedFileDecorator.cs:148-159 | `GetBytes` returns the inner provider's answer unwrapped. It adds one inner call and touches nothing else. |
| SeedFile.DisposeSpec | Nerdbot/Utilities/Fortuna/Initialization/SeedFileDecorator.cs:184-193 | `Dispose`: the first call disposes the store, then the inner provider, and sets the flag. Any later call leaves the state as it is. |
| SeedFile.DisposeIdempotent | Nerdbot/Utilities/Fortuna/Initialization/SeedFileDecorator.cs:184-193 | Disposing twice is disposing once. The store and the inner provider are disposed exactly once. |
| SeedFile.SeedStore.constructor | Nerdbot/Utilities/Fortuna/Initialization/SeedFileDecorator.cs:44 | The stream holds the given bytes at position 0. |
| SeedFile.SeedStore.Length | Nerdbot/Utilities/Fortuna/Initialization/SeedFileDecorator.cs:64 | `Length` is the number of stored bytes. |
| SeedFile.SeedStore.Read | Nerdbot/Utilities/Fortuna/Initialization/SeedFileDecorator.cs:67-70 | The stream read copies what `ReadBytes` gives and leaves the rest of the buffer alone. |
| SeedFile.SeedStore.SeekToStart | Nerdbot/Utilities/Fortuna/Initialization/SeedFileDecorator.cs:178 | Seeking moves the position to 0 and logs it. |
| SeedFile.SeedStore.Write | Nerdbot/Utilities/Fortuna/Initialization/SeedFileDecorator.cs:179 | A write overwrites at the position and advances it. |
| SeedFile.SeedStore.Flush | Nerdbot/Utilities/Fortuna/Initialization/SeedFileDecorator.cs:180 | A flush is logged and changes no bytes. |
| SeedFile.SeedStore.Dispose | Nerdbot/Utilities/Fortuna/Initialization/SeedFileDecorator.cs:188 | Disposing keeps the bytes. |
| SeedFile.SeedFileDecorator.constructor | Nerdbot/Utilities/Fortuna/Initialization/SeedFileDecorator.cs:46-56 | After the checks pass, the decorator wraps the stream with no inner calls and the timer stopped. |
| SeedFile.SeedFileDecorator.Create | Nerdbot/Utilities/Fortuna/Initialization/SeedFileDecorator.cs:46-56 | Construction succeeds exactly when the argument checks pass, and otherwise raises their error. |
| SeedFile.SeedFileDecorator.InitializePRNG | Nerdbot/Utilities/Fortuna/Initialization/SeedFileDecorator.cs:58-100 | The outcome and new state are those of `Initialize`. |
| SeedFile.SeedFileDecorator.LoadSeedFromFile | Nerdbot/Utilities/Fortuna/Initialization/SeedFileDecorator.cs:64-75 | The outcome and new state are those of `LoadSeed`. |
| SeedFile.SeedFileDecorator.UpdateFile | Nerdbot/Utilities/Fortuna/Initialization/SeedFileDecorator.cs:176-181 | The stream's new state is `UpdateSeedFile` of the old one. |
| SeedFile.SeedFileDecorator.GetBytes | Nerdbot/Utilities/Fortuna/Initialization/SeedFileDecorator.cs:148-159 | The outcome, the state and the caller's array are those of `GetBytesSpec`. |
| SeedFile.SeedFileDecorator.Dispose | Nerdbot/Utilities/Fortuna/Initialization/SeedFileDecorator.cs:184-193 | The new state is `DisposeSpec` of the old one. |

## Left out

- Locks, reader-writer locks, semaphores and `Interlocked`: the model is single-threaded.
- The async variants `InitializePRNGAsync`: they have the same logic as the synchronous calls.
- The 10-minute refresh timer and `ReseedFileCallback`: the model only records that the timer was armed.
- The entropy sources and the event scheduler: their events are inputs (`EntropyEvent`, `Poll`).
- `DateTime.UtcNow` and the tick count: they are parameters (`now`, `tickCountBytes`).
- Provider.PRNGFortunaProvider.GetBytes: reads the clock once. The source reads `DateTime.UtcNow` twice in one call: once at PRNGFortunaProvider.cs:80 for the reseed test and once at line 106 for `_lastReseedTime`. The model records the same `now` for both, so it ignores the few ticks between the two readings.
- `Thread.Sleep` polling in `InitializePRNG`: it is a sequence of polls, each with the events that arrived and the token's state.
- SHA-256, AES and the counter encoding: they are uninterpreted parameters. Only the SHA-256 and AES output lengths are assumed (`ValidPrimitives`); the counter encoding is unconstrained.
- Int overflow of the counters `_runningCount`, `_requestDataCount`, `_sourceCount` and `_reseedCount` after 2^31 increments: they are unbounded naturals. In C#, `_reseedCount` (PRNGFortunaProvider.cs:44,104) would wrap to negative values and then back to 0, and at 0 `GetBytes` would refuse again (line 88). The model's `reseedCount` never returns to 0 once it has left it.
- Accumulator.RoundRobin: uses unbounded counters, so it does not capture the wrap of `_runningCount` after 2^31 events.
- The big-endian branches of `BitConverter`: the model assumes a little-endian machine.
- Stream I/O failures (`IOException`, a short write): the store is an in-memory stream that always succeeds.
- Null arguments, which Dafny references and sequences cannot be: the null arrays passed to `GetBytes` and `AddEventData`; the `ArgumentNullException` checks on a null generator or accumulator in the `PRNGFortunaProvider` constructor (PRNGFortunaProvider.cs:48-49) and on a null event scheduler or provider list in the `FortunaAccumulator` constructor (FortunaAccumulator.cs:54-55); and a null seed to `FortunaGenerator.Reseed`, which would fail inside `Concat`. The seed-file decorator's null checks are modelled, by `ConstructorCheck`.
- Calls after `Dispose`: the model only records disposal.
- Pool.Dispose: it only releases the SHA-256 object and the lock.
- `Debug.Assert` calls: they are not part of release behaviour.
- `Math.Abs` overflow in `RandomNumber`: it cannot happen, because a candidate is below 2^24.
- Sampler.RandomNumber: draws from a finite byte stream instead of calling the provider. It returns `None` when the stream runs out, where the source would keep drawing.
- Accumulator.FortunaAccumulator.constructor: does not call `RegisterEntropySources`. Registration is `RegisterEntropySources` on its own.
- The decorator's inner provider is an interface: its answers are parameters (`Answers`), and the calls it receives are kept as a trace.
- `PRNGFortunaProviderFactory` and the `Create` methods: they only wire the objects together.

## Findings

| source | as written | input that shows it | evidently intended | confidence | as-written member | corrected member |
|---|---|---|---|---|---|---|
| Nerdbot/Utilities/Fortuna/Extensions/IPRNGFortunaProviderExtensions.cs:47 | `offset = 8 - numBits % (numBytes * 8)` is 8 whenever `numBits` is a multiple of 8. The mask then clears the whole top byte, and for 8 bits the only byte drawn. | `RandomNumber(200)` with first byte 1 returns 0. Every bound 129..256 always returns 0. | Keep `numBits` bits of the draw (shift by `numBytes*8 - numBits`), so every value below the bound can occur. | not executed | Sampler.WrittenCollapses | Sampler.FixedReachesEvery |
| Nerdbot/Utilities/Fortuna/Generator/FortunaGenerator.cs:84-105 | `GenerateBlocks` always uses a 16 KiB buffer. `GenerateBytes` accepts lengths below 2^20, but any length above 16 KiB overruns that buffer and throws `ArgumentException`. | `GenerateBytes(new byte[16385])` on a seeded generator fails. | Size the buffer to the blocks requested, so every length below 2^20 is served. | not executed | Generator.OversizedRequestFails | Generator.BytesSizedOutcome |
| Nerdbot/Utilities/Fortuna/Initialization/SeedFileDecorator.cs:176-181 | `UpdateSeedFile` writes 64 bytes at the start and never truncates the stream. A longer seed file keeps its length, and the length test at line 64 rejects it forever. | A 100-byte seed file is passed over at every start-up. | Set the stream length to 64 after writing, so the saved seed is reused. | not executed | SeedFile.LongStoreNeverReused | SeedFile.TruncatingSeedReusedOnRestart |
