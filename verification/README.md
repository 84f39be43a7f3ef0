# URL shortener core in Dafny

This project models the sequential core of a Go URL shortener and proves
properties of the model. The Go service turns a Snowflake identifier into a
base-62 short code. It screens the code with a Bloom filter and confirms
suspected collisions against an in-memory store. A pool of workers then
commits each (code, URL) task to the store and to the filter.

One module per Go package:

- `Base62` (`base62.dfy`): `ToBase62` and the 62-symbol alphabet (digits,
  then upper case, then lower case). It also defines a specification-level
  `Decode`. The service never decodes, but `Decode` states what the encoding
  means: round trip, injectivity, and a bijection onto canonical strings.
- `Snowflake` (`snowflake.dfy`): the generator state (worker id, sequence,
  last timestamp), its constructor, and `Generate` as a pure transition. The
  clock is an input. Each call gets its first millisecond reading and the
  readings its busy-wait would take. Identifiers are packed as
  `time * 2^22 + workerId * 2^12 + sequence`. `OrIsAddWhenDisjoint` shows,
  on 64-bit words, that shift-and-or equals shift-and-add when the fields
  fit their widths.
- `Bloom` (`bloom.dfy`): the bit array as `seq<bool>` and the round count.
  `Add` and `MightContain` follow the two loops of the source. The hash of
  "key followed by round number" is an arbitrary function
  `hash(key, round)` passed as a parameter, so every result holds for any
  hash.
- `Store` (`store.dfy`): the URL store as a `map<string, string>` with
  upsert `Store` and lookup `Get`, plus the `Task` record.
- `Worker` (`worker.dfy`): one worker iteration (`Store`, then `Add`) as
  `Apply`. Draining the task channel is `Drain`, a fold of a finite task
  sequence over the shared (store, filter) pair. The end state of the
  four interleaved workers is the drain of some permutation of the
  backlog. The filter never depends on that permutation. The store does
  not depend on it when the codes are distinct.
- `Shorten` (`shorten.dfy`): the code selection of `ShortenHandler` as a
  pure function of the generator, two clock ticks, the filter, the hash
  and the store.

Three places where the code falls short of what such a service is meant to
do; the model follows the code:

- A Snowflake generator is meant to issue non-decreasing identifiers even
  when the clock steps back; this code does not guard against that. A reading earlier
  than the last timestamp resets the sequence and yields a smaller id
  (`Snowflake.ClockRegressionDecreases`). Monotonicity is proved only for
  clocks that do not go back (`Snowflake.RunStrictlyIncreasing`).
- A collision is meant to be resolved by regenerating until the code is
  free; this code regenerates exactly once and does not check the second
  code
  (`Shorten.SecondCodeUnchecked`).
- Filter sizing is meant to round the size up and the round count to the
  nearest integer; this code truncates both (`int(...)`). Sizing is left
  out: see below.

## Model

| member | source | states |
|---|---|---|
| `Base62.DigitValue` | handler/handler.go:14 | the value of an alphabet symbol is its position in the 62-symbol alphabet |
| `Base62.DigitValueOfSymbol` | handler/handler.go:14 | the alphabet has no repeated symbol, so the symbol taken for digit d reads back as d |
| `Base62.SymbolsAreAlphabet` | handler/handler.go:14 | the alphabet's characters are exactly the ASCII digits and letters |
| `Base62.ZeroSymbol` | handler/handler.go:14 | the alphabet has 62 symbols and its first symbol is '0' |
| `Base62.EncodeDigits` | handler/handler.go:22-28 | the divide-by-62 loop emits only alphabet symbols and emits nothing exactly when the number is not positive |
| `Base62.ToBase62` | handler/handler.go:17-29 | every output character is an alphabet symbol; 0 encodes to "0"; a negative number encodes to the empty string |
| `Base62.Decode` | handler/handler.go:17-29 | reading a base-62 string of length L gives a value below 62^L |
| `Base62.RoundTrip` | handler/handler.go:17-29 | for every num >= 0, decoding ToBase62(num) gives num back |
| `Base62.Injective` | handler/handler.go:17-29 | distinct non-negative numbers get distinct codes |
| `Base62.Shape` | handler/handler.go:23-26 | for num > 0 the code is non-empty, does not start with '0', and its length L satisfies 62^(L-1) <= num < 62^L |
| `Base62.DecodeLowerBound` | handler/handler.go:23-26 | a string of length L with no leading zero symbol reads as at least 62^(L-1) |
| `Base62.DecodeEncode` | handler/handler.go:17-29 | every canonical string ("0" or no leading '0') is the code of the number it decodes to, so the encoding is a bijection onto canonical strings |
| `Snowflake.NewSnowflakeAsWritten` | snowflake/snowflake.go:25-31 | the constructor as written fails exactly for worker ids >= 1024 and otherwise starts at sequence 0 and lastTime 0 |
| `Snowflake.NewSnowflake` | snowflake/snowflake.go:25-31 | the constructor with the range check: it succeeds exactly for 0 <= workerId < 1024, starting at sequence 0 and lastTime 0 in a valid state |
| `Snowflake.NegativeWorkerIdCollides` | snowflake/snowflake.go:26 | worker id -1 passes the check as written, and then two different milliseconds pack to the same id; the checked constructor refuses it |
| `Snowflake.UnpackPack` | snowflake/snowflake.go:10-15 | with the worker id below 2^10 and the sequence below 2^12, unpacking recovers time, worker id and sequence, and the id fits in a signed 64-bit integer |
| `Snowflake.OrIsAddWhenDisjoint` | snowflake/snowflake.go:51 | on 64-bit words, when the worker id fits 10 bits and the sequence 12 bits, shift-and-or equals shift-and-add |
| `Snowflake.PackInjective` | snowflake/snowflake.go:51 | two packed ids are equal only when all three fields are equal |
| `Snowflake.CatchUp` | snowflake/snowflake.go:41-44 | the busy-wait stops at the first reading past the last timestamp, and every earlier reading is not past it |
| `Snowflake.Generate` | snowflake/snowflake.go:37-53 | same millisecond with no wrap: sequence + 1; on a wrap: sequence 0 and a timestamp strictly after lastTime; any other millisecond: sequence 0 and lastTime = now; the state stays valid (sequence < 4096, worker id fixed) and the id unpacks to the new state's fields |
| `Snowflake.GenerateIncreases` | snowflake/snowflake.go:37-53 | when the reading is not before lastTime, the new id is strictly greater than the last recorded id |
| `Snowflake.ClockRegressionDecreases` | snowflake/snowflake.go:46-50 | for every valid generator and every reading before lastTime, the sequence resets to 0, lastTime becomes that earlier reading, and the new id is smaller than the last one |
| `Snowflake.ClockRegressionReachable` | snowflake/snowflake.go:46-50 | a valid generator at timestamp 100 that reads timestamp 40 issues an id smaller than its last one, so the regression case occurs |
| `Snowflake.RunStrictlyIncreasing` | snowflake/snowflake.go:33-54 | ids from successive calls on one generator, with a clock that never goes back past lastTime, strictly increase and are therefore distinct |
| `Bloom.Index` | bloom/bloom.go:43 | every computed bit position is below the filter size |
| `Bloom.NewFilter` | bloom/bloom.go:18-27 | a new filter has the requested size and round count and every bit clear |
| `Bloom.SetRounds` | bloom/bloom.go:42-45 | the Add loop from a given round sets exactly the positions of the remaining rounds and keeps every other bit |
| `Bloom.Add` | bloom/bloom.go:38-46 | bit j is set afterwards exactly when it was set before or some round i < hashCount hashes the key to j; size and round count are unchanged |
| `Bloom.AllSet` | bloom/bloom.go:52-57 | the short-circuit loop from a given round answers true exactly when all remaining rounds' positions are set |
| `Bloom.MightContain` | bloom/bloom.go:48-60 | the answer is false exactly when some round i < hashCount hashes the key to a clear bit |
| `Bloom.AddMonotone` | bloom/bloom.go:42-45 | Add never clears a bit and keeps the filter's geometry |
| `Bloom.AddIdempotent` | bloom/bloom.go:38-46 | adding a key twice is the same as adding it once |
| `Bloom.AddCommutes` | bloom/bloom.go:38-46 | the order in which two keys are added does not matter |
| `Bloom.NoFalseNegative` | bloom/bloom.go:38-60 | right after Add(key), MightContain(key) is true |
| `Bloom.MightContainMonotone` | bloom/bloom.go:48-60 | a true answer stays true when bits are only added |
| `Bloom.AddAll` | bloom/bloom.go:38-46 | adding a sequence of keys only sets bits and keeps the geometry |
| `Bloom.StaysMember` | bloom/bloom.go:38-60 | an added key stays a possible member after any further additions |
| `Store.NewUrlStore` | store/store.go:17-19 | a new store has no mapping |
| `Store.Store` | store/store.go:22-27 | the code maps to the new URL, the key set grows by that code only, and every other code keeps its mapping |
| `Store.Get` | store/store.go:29-36 | found exactly when the code is present, with its URL; otherwise ("", false) |
| `Store.StoreThenGet` | store/store.go:22-35 | Store(c, u) followed by Get(c) returns (u, true) |
| `Store.GetNeverStored` | store/store.go:29-35 | a code never stored is not found, neither in a new store nor after storing other codes |
| `Store.LastWriteWins` | store/store.go:26 | of two writes to one code the last one wins |
| `Store.StoreIdempotent` | store/store.go:26 | storing an identical pair twice is the same as storing it once |
| `Store.StoreCommutes` | store/store.go:26 | writes to different codes commute |
| `Worker.Init` | main.go:22-24 | the start state is an empty store and a clear filter of the given geometry |
| `Worker.InitLinked` | main.go:23-24 | the start state satisfies the linking invariant |
| `Worker.Apply` | main.go:34-37 | after a task its code maps to its URL and is a possible filter member, and the filter keeps its geometry |
| `Worker.ApplyKeepsOtherCodes` | main.go:35 | a task leaves every other code's lookup unchanged |
| `Worker.ApplyGrows` | main.go:36 | a task only sets filter bits |
| `Worker.ApplyStoresFirst` | main.go:35-36 | the store is written before the filter: between the two steps the filter is unchanged and the code is already stored, so every code given to the filter is in the store at every point |
| `Worker.ApplyPreservesLinked` | main.go:34-37 | a task preserves "every stored code is a possible filter member" |
| `Worker.Drain` | main.go:34 | draining a backlog keeps the filter's geometry |
| `Worker.DrainAppend` | main.go:34 | draining a backlog in two parts is the same as draining it in one |
| `Worker.DrainLast` | main.go:34 | the last task of a backlog is applied once, after all the others |
| `Worker.DrainGrows` | main.go:34-36 | a drain only sets filter bits |
| `Worker.DrainPreservesLinked` | main.go:34-37 | a drain preserves the linking invariant |
| `Worker.StoredStaysStored` | main.go:35 | a drain never removes a stored code |
| `Worker.DrainedTasksAreMembers` | main.go:34-37 | after a drain every task's code is stored and is a possible filter member |
| `Worker.DrainBits` | main.go:34-37 | after a drain a bit is set exactly when it was set before or some drained code's round hits it |
| `Worker.DrainFilterOrderIndependent` | main.go:30-38 | any permutation of the backlog yields the same filter |
| `Worker.DrainStoreUntouched` | main.go:34-35 | a code that no task carries keeps its lookup through a drain |
| `Worker.DrainStoreLast` | main.go:34-35 | a code that some task carries maps, after the drain, to the URL of the last task carrying it |
| `Worker.DrainStoreAgreesAt` | main.go:30-38 | with distinct codes, two orders of one backlog agree on each code's lookup |
| `Worker.DrainStoreOrderIndependent` | main.go:30-38 | with distinct codes, any permutation of the backlog yields the same store |
| `Worker.DuplicateCodesOrderMatters` | main.go:30-38 | there is a backlog with a repeated code whose two orders give different stores |
| `Shorten.SelectCode` | handler/handler.go:48-57 | one or two ids are generated, the second exactly when the filter says maybe and the store confirms; with one id the first code and generator are returned, with two the second code is returned unchecked |
| `Shorten.MissSkipsStore` | handler/handler.go:48-52 | on a filter miss the first code is returned and the selection is the same for every store |
| `Shorten.FalsePositiveKeepsCode` | handler/handler.go:52-53 | when the store does not hold the first code, that code is kept and only one id is generated |
| `Shorten.ReplacementDiffers` | handler/handler.go:53-56 | with a clock that does not go back, a replacement code differs from the code it replaces |
| `Shorten.SecondCodeUnchecked` | handler/handler.go:53-56 | the second code is not re-checked: a filter that says maybe and a store holding both candidates make the selection return a confirmed collision |

## Left out

- HTTP serving, routing, method and form checks, response writing, signal handling and the shutdown timeout (main.go:41-64, handler/handler.go:33-46 and 59-66). These are I/O plumbing.
- `RedirectHandler` (registered at main.go:44): HTTP lookup plumbing. It reads the store through `Get`, which is modelled.
- Goroutines, the task channel and its capacity of 100, `sync.WaitGroup`, and the mutexes of the generator, filter and store. Each operation is one atomic step, and the worker pool is a sequential fold over the backlog. When the four workers interleave, the final store depends only on the order of the `Store` calls, and the final filter depends on no order (`Worker.DrainFilterOrderIndependent`). So the end state of any interleaving equals the drain of some permutation of the backlog. The order lemmas say when that permutation does not matter.
- The timed hand-off of a task to the channel (`select` with `ctx.Done()`, handler/handler.go:60-66): accepting or timing out depends on the scheduler and the clock. Only the code selection before it is modelled.
- `optimalSize` / `optimalHashCount` (bloom/bloom.go:29-36). They compute in floating point and truncate. `NewFilter` takes size > 0 and a round count >= 1 directly.
- `xxhash.Sum64` of `fmt.Sprintf("%s%d", key, i)`: this is foreign code, replaced by an arbitrary function `hash(key, round)`.
- `time.Now()` and `time.Sleep`: the clock readings are inputs (`Snowflake.Tick`).
- Snowflake.Generate: readings more than 2^41 ms from the epoch are excluded by `CanIssue`. The 64-bit overflow of `now << 22` there is not modelled.
- Snowflake.Generate: the sequence step `(sequence + 1) & (MaxSequence - 1)` is written `% MaxSequence`. The two agree because the sequence is never negative.
- Snowflake.Generate: a busy-wait whose readings never pass the last timestamp (an infinite loop in the source) is excluded by `CanIssue`.
- Snowflake.NewSnowflake: the model uses the constructor with the negative-id check (see Findings). The source's constructor is `NewSnowflakeAsWritten`.
- Bloom.Add and Bloom.MightContain: `size` (uint64) and `hashCount` (uint) are unbounded naturals. The 64-bit hash value is a natural.
- Base62.ToBase62: the argument is an unbounded integer rather than an int64. The loop only divides, so no overflow is lost.

## Findings

| source | as written | input that shows it | evidently intended | confidence | as-written member | corrected member |
|---|---|---|---|---|---|---|
| snowflake/snowflake.go:26 | `NewSnowFlake` refuses only `workerID >= MaxWorkerID`, so negative worker ids are accepted. With `workerID = -1`, `workerID << 12` has every high bit set, and the `\|` of line 51 erases the timestamp field. | worker id -1, sequence 0, at elapsed milliseconds 5 and 6: both ids are -4096 (`NegativeWorkerIdCollides`) | refuse any worker id outside 0..1023, so the fields stay disjoint and ids stay unique | not executed; the only caller passes 1 | `Snowflake.NewSnowflakeAsWritten` | `Snowflake.NewSnowflake` |
