# partialkey in Dafny

A model of the `partialkey` Go package, an implementation of Partial Key
Grouping ("the power of both choices", arXiv 1510.07623). A `Group` holds one
unsigned 64-bit load counter per downstream slot. `Choose(key)` hashes the
key with seed 13 and with seed 7, reduces both digests modulo the number of
slots, keeps the first candidate unless its load is strictly greater than
the second's, charges the winner one unit of load and returns its index.
`Release(slot)` gives one unit back by adding `^uint64(0)`, which is
subtraction of 1 modulo 2^64.

Layout:

- `uint64.dfy` (module `Uint64`): 64-bit words as the integers `[0, 2^64)`
  and the wrapping addition `atomic.AddUint64` performs.
- `partialkey.dfy` (module `Partialkey`): the `Group` value, `New`,
  `Choose`, `Release`, the balancing rule `IsPkgChoice` stated on its own,
  and the Choose/Release round trip.
- `load.dfy` (module `Load`): the total load of a group and how each call
  moves it, exactly when no counter wraps and modulo 2^64 always.
- `runs.dfy` (module `Runs`): batches of keys dispatched with and without an
  immediate release (the two loops of the package's tests), and replay of an
  arbitrary sequence of calls in which the Go runtime's panics are explicit.

The group is an immutable value and every call is a pure function from the
old group to the new one. The hash `wyfast.Sum64` is a parameter of type
`(seq<bv8>, U64) -> U64`; every property holds whatever function is passed.

A constructor might be expected to reject a non-positive slot count; `New`
does not: `New(0)` builds an empty group and only a later `Choose` panics,
on the reduction modulo 0, while a negative count panics inside `make`. The
model follows the code: `New` takes any `nat`, and `Choose` requires at
least one slot.

## Model

| member | source | states |
|---|---|---|
| Uint64.Increment | partialkey.go:37 | adding 1 to a counter gives load + 1, except that the largest word wraps round to 0 |
| Uint64.Decrement | partialkey.go:46 | adding `^uint64(0)` gives load - 1 for a positive counter, and wraps 0 round to 2^64 - 1 |
| Uint64.IncrementDecrementInverse | partialkey.go:37-46 | the wrapping decrement undoes the wrapping increment and vice versa, for every word |
| Partialkey.New | partialkey.go:21-24 | a new group has exactly `n` slots, every one with load 0 |
| Partialkey.FirstCandidate | partialkey.go:29-30 | the seed-13 candidate is a valid slot index whenever the group has a slot |
| Partialkey.SecondCandidate | partialkey.go:29-31 | the seed-7 candidate is a valid slot index whenever the group has a slot |
| Partialkey.Choose | partialkey.go:26-39 | on a non-empty group the result is a slot in range that satisfies the balancing rule (one of the two candidates, least loaded of the two, the first on a tie); that slot alone is charged one unit (mod 2^64); the slot count is unchanged |
| Partialkey.Release | partialkey.go:41-47 | for an index inside the group, that counter drops by one (0 wraps to 2^64 - 1), every other counter and the slot count are unchanged |
| Partialkey.PkgChoiceIsUnique | partialkey.go:33-35 | any slot that satisfies the balancing rule is the one Choose returns, so the rule determines the choice completely |
| Partialkey.CandidatesIgnoreLoads | partialkey.go:29-31 | the candidate pair depends on the key and the slot count only: when two groups of one size, whatever their loads, send a key to different slots, those two slots are exactly the two candidates |
| Partialkey.SameCandidatesForceSlot | partialkey.go:30-35 | when both hashes land on one slot, that slot is chosen whatever the loads |
| Partialkey.ReleaseUndoesChoose | partialkey.go:28-47 | releasing the slot Choose returned restores the counter array exactly |
| Partialkey.ChooseAfterReleaseRepeats | partialkey_test.go:41-45 | choose, release, choose with the same key returns the same slot both times |
| Load.TotalNew | partialkey.go:22-24 | a new group carries total load 0 |
| Load.ChooseAddsOne | partialkey.go:37 | if no counter is at 2^64 - 1, Choose raises the total load by exactly one |
| Load.ReleaseRemovesOne | partialkey.go:46 | if the released counter is positive, Release lowers the total load by exactly one |
| Load.ChooseMovesTotal | partialkey.go:37 | whatever the counters, Choose raises the total load by one, less 2^64 exactly when the chosen counter wraps from 2^64 - 1 to 0 |
| Load.ReleaseMovesTotal | partialkey.go:46 | whatever the counters, Release lowers the total load by one, plus 2^64 exactly when the counter wraps from 0 to 2^64 - 1 |
| Runs.ChooseEach | partialkey_test.go:22-24 | dispatching a batch of keys without releases keeps the slot count and records one in-range slot per key |
| Runs.ChooseAndReleaseEach | partialkey_test.go:41-45 | dispatching a batch of keys, releasing each slot after use, keeps the slot count and records one in-range slot per key |
| Runs.ChooseEachTallies | partialkey_test.go:22-24 | without releases and without wrap-around, each counter grows by exactly the number of keys sent to its slot, and the total by the number of keys |
| Runs.ChooseEachFromNewTotal | partialkey_test.go:15-24 | from a new group, M keys (M < 2^64) leave a total load of exactly M |
| Runs.ChooseAndReleaseEachRestores | partialkey_test.go:41-45 | choosing and releasing each key in turn leaves the group as it was, and every key gets the slot it would get alone |
| Runs.Apply | partialkey.go:28-47 | a call the runtime admits leaves the slot count unchanged |
| Runs.Replay | partialkey.go:28-47 | a sequence of calls completes exactly when every call is admitted (Choose on a non-empty group, Release with an index in range); otherwise it stops at the first call that panics, every earlier call having been admitted; a completed run keeps the slot count |
| Runs.ApplyMovesTotal | partialkey.go:28-47 | one admitted call moves the total load by +1 (Choose) or -1 (Release), corrected by 2^64 for a counter that wraps |
| Runs.ReplayConservesLoad | partialkey.go:28-47 | over any completed sequence of calls, the total load moves by the number of Chooses minus the number of Releases, less 2^64 times the net number of wraps; so it is conserved exactly modulo 2^64 |
| Runs.MatchedCountersAreInFlight | partialkey_test.go:94-102 | in a run from a new group of fewer than 2^64 calls in which every Release gives back a slot an earlier, still outstanding Choose returned, no counter wraps and each counter equals the number of outstanding Chooses of its slot |
| Runs.ReplayFromNewTotal | partialkey_test.go:94-102 | such a matched run ends with a total load equal to the number of Chooses minus the number of Releases, which is the number of calls in flight, so 0 once every Choose has been released |
| Runs.DeferredReleaseReturnsToZero | partialkey_test.go:94-102 | choosing two keys and releasing both slots afterwards, as the deferred-release loop does, completes without a panic and leaves total load 0 |

## Left out

- `wyfast.Sum64`: a foreign library; it is a parameter, so nothing here depends on its bits.
- `sync/atomic` and concurrency: every call is one atomic step on an immutable value. The read-compare-increment race in `Choose` (two callers reading the same stale loads and charging the same slot) is not modelled.
- Statistical balance (the maximum load staying near the mean): a probabilistic claim that cannot be stated for an arbitrary hash.
- The test functions' random key generation, timers, goroutines and percentage logging. The three dispatch loops are modelled sequentially: choosing without release as `Runs.ChooseEach`, choosing with an immediate release as `Runs.ChooseAndReleaseEach`, and choosing with a release issued later as a matched `Runs.Replay` run. The goroutine loop without any release at partialkey_test.go:64-73 behaves, sequentially, like the first.
- `New` with a negative count: Go panics in `make`; the model's `nat` parameter excludes it.
- Runs.ChooseEachTallies: the exact per-slot tally is proved only while the total stays below 2^64 - 1; beyond that a counter may wrap and only the wrap-corrected statement of `Runs.ReplayConservesLoad` holds.
