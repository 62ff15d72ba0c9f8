# SimpleCache: a set-associative cache simulator, modelled in Dafny

`SimpleCache` is a gem5 cache stage between a CPU side and a memory side.
It keeps a table of `numSets × associativity` entries, each holding a `tag` and a
`lastUsed` recency counter, and three statistics counters. A request from the CPU
(`recvReq`) is split into set index and tag. If some way of that set holds the tag, the
request is a hit: the set's recency is updated and the CPU is answered at once.
Otherwise the request is forwarded to memory. A response from memory (`recvResp`) is
installed in the set: a way is chosen by `oldestWay`, the tag is written there, the
recency is updated, and the CPU is answered.

The project models the code as it is written:

- `bits.dfy` (module `Bits`) holds powers of two and an integer `Log2` that stands in for
  `(int)std::log2(x)`. It also holds a logical right shift as repeated halving and a
  bitwise AND computed bit by bit, with the facts that connect them to `/` and `%`.
- `address_decode.dfy` (module `AddressDecode`) holds `calculateIndex` and
  `calculateTag` over 64-bit addresses, built from those shifts and masks. The
  truncation of the shifted address to a 32-bit `int` tag is explicit, and so is its
  consequence: far enough apart, two addresses share set and tag.
- `cache_set.dfy` (module `CacheSet`) holds one set as a sequence of entries. It
  defines what the scans return (`Holds`, `FirstWay`, `MaxLastUsed`) and the two
  in-place updates as the code performs them (`TouchAsWritten`, `FillAsWritten`).
- `simple_cache.dfy` (module `SimpleCacheModel`) holds the class `SimpleCache`. Its
  table is a `seq<seq<Entry>>` field that the methods reassign. The counters are
  `nat` fields. `sendReq`/`sendResp` append a `Message` to the ghost field `sent`. The
  scanning loops and the recency loop are methods with loop invariants, proved against
  the `CacheSet` functions.
- `intended_lru.dfy` (module `IntendedLru`) holds the least-recently-used policy the
  code was meant to implement. It also holds lemmas that show, on concrete sets, where
  the code departs from it (see Findings).

Two invariants of every reachable table are kept by every method (`SimpleCache.Valid`).
The first is `RecencyShape`. The recency loop only ever writes `associativity - 1 - way`
into way `way`, and counters start at 0. So every counter is either 0 or
`associativity - 1 - way`. As a consequence, the counter value that `oldestWay` returns
is always a valid way number, and the `.at(way)` of the install (simple_cache.cc:94)
never throws. The model proves this instead of assuming it. The second invariant is
`UniqueTags`: no tag appears twice in a set, except the tag 0 of entries that were
never filled. `recvResp` keeps it because it requires that the line is absent
(simple_cache.cc:89).

The default values of an entry live in `simple_cache.hh`, which is not part of this
model. They are taken as `tag = 0, lastUsed = 0`. Because there is no valid bit, a
lookup of tag 0 in a fresh set reports a hit (`CacheSet.ColdTagZeroHits`).

## Model

| member | source | states |
|---|---|---|
| `Bits.Log2` | src/tdt4260/cache_lab/cache_impl/simple_cache.cc:115 | the integer log2 of a power of two n satisfies 2^k = n, the exact value `(int)std::log2(n)` gives |
| `Bits.ShiftRight` | src/tdt4260/cache_lab/cache_impl/simple_cache.cc:122 | shifting right by k (k halvings) equals division by 2^k |
| `Bits.BitAnd` | src/tdt4260/cache_lab/cache_impl/simple_cache.cc:123 | the bitwise AND of two unsigned values is no larger than either operand |
| `Bits.AndLowMask` | src/tdt4260/cache_lab/cache_impl/simple_cache.cc:123 | masking with 2^k - 1 equals the remainder modulo 2^k |
| `AddressDecode.ToInt32` | src/tdt4260/cache_lab/cache_impl/simple_cache.cc:115 | converting the shifted 64-bit address to `int` gives a value in the 32-bit signed range, congruent to the input modulo 2^32, and equal to it when it is below 2^31 |
| `AddressDecode.CalculateIndex` | src/tdt4260/cache_lab/cache_impl/simple_cache.cc:118-126 | `(a >> log2(blockSize)) & (numSets - 1)` lies in `[0, numSets)` and equals `(a / blockSize) % numSets` |
| `AddressDecode.RawTag` | src/tdt4260/cache_lab/cache_impl/simple_cache.cc:115 | `a >> (log2(blockSize) + log2(numSets))` equals `a / (blockSize * numSets)` |
| `AddressDecode.CalculateTag` | src/tdt4260/cache_lab/cache_impl/simple_cache.cc:109-116 | the `int` tag lies in the 32-bit signed range and equals `a / (blockSize * numSets)` whenever that quotient is below 2^31 |
| `AddressDecode.DecodeRoundTrip` | src/tdt4260/cache_lab/cache_impl/simple_cache.cc:109-126 | `a == (RawTag(a) * numSets + index) * blockSize + a % blockSize`: the untruncated tag, the index and the offset lose no address bits |
| `AddressDecode.DecodeRoundTripInt` | src/tdt4260/cache_lab/cache_impl/simple_cache.cc:109-126 | for addresses below 2^31 * blockSize * numSets the same round trip holds with the `int` tag that `calculateTag` returns |
| `AddressDecode.TagAliasing` | src/tdt4260/cache_lab/cache_impl/simple_cache.cc:109-126 | two addresses 2^32 * blockSize * numSets apart get the same index and the same `int` tag although their untruncated tags differ by 2^32 |
| `AddressDecode.TagAliasingExample` | src/tdt4260/cache_lab/cache_impl/simple_cache.cc:109-126 | with 64-byte blocks and 128 sets, addresses 0 and 0x2000_0000_0000 share index and `int` tag while their untruncated tags differ |
| `AddressDecode.SameBlockSameLine` | src/tdt4260/cache_lab/cache_impl/simple_cache.cc:109-126 | two addresses in the same block decode to the same index and tag |
| `AddressDecode.DecodeExample` | src/tdt4260/cache_lab/cache_impl/simple_cache.cc:118-126 | with 64-byte blocks and 128 sets, address 0x1000 has index 64 and tag 0 |
| `CacheSet.FirstWay` | src/tdt4260/cache_lab/cache_impl/simple_cache.cc:143-154 | the result is -1 exactly when no way holds the tag; otherwise it is the lowest way whose tag matches |
| `CacheSet.MaxLastUsed` | src/tdt4260/cache_lab/cache_impl/simple_cache.cc:156-169 | the result is at least every counter of the set and equal to one of them: a counter value, not a way |
| `CacheSet.OldestInRange` | src/tdt4260/cache_lab/cache_impl/simple_cache.cc:91-94 | when every counter has the shape the recency loop writes, the largest counter is a valid way number, so the install's `.at(way)` is in range |
| `CacheSet.FillAsWritten` | src/tdt4260/cache_lab/cache_impl/simple_cache.cc:91-104 | after the install the set holds the tag and keeps its size and counter shape; every way other than the one numbered by the largest counter is unchanged; a set with unique tags stays so when the tag was absent |
| `CacheSet.TouchKeepsShape` | src/tdt4260/cache_lab/cache_impl/simple_cache.cc:64-72 | the recency update as written keeps every tag and keeps the counter shape |
| `CacheSet.UniqueWay` | src/tdt4260/cache_lab/cache_impl/simple_cache.cc:143-154 | in a set with unique tags, the way found for a non-zero tag is the one way that holds it |
| `CacheSet.ColdTagZeroHits` | src/tdt4260/cache_lab/cache_impl/simple_cache.cc:27-29 | a never-filled set reports tag 0 as present, in way 0 |
| `SimpleCacheModel.SimpleCache.constructor` | src/tdt4260/cache_lab/cache_impl/simple_cache.cc:13-33 | builds `numEntries = size / blockSize` and `numSets = numEntries / associativity` sets, each of exactly `associativity` fresh entries; counters start at 0 and nothing has been sent |
| `SimpleCacheModel.SimpleCache.HasLine` | src/tdt4260/cache_lab/cache_impl/simple_cache.cc:128-141 | true exactly when some way below `associativity` of the set stores the tag; changes no state |
| `SimpleCacheModel.SimpleCache.LineWay` | src/tdt4260/cache_lab/cache_impl/simple_cache.cc:143-154 | returns the lowest matching way, or -1 exactly when none matches; a non-negative result is below `associativity` and its entry holds the tag |
| `SimpleCacheModel.SimpleCache.OldestWay` | src/tdt4260/cache_lab/cache_impl/simple_cache.cc:156-169 | returns a value that is at least every `lastUsed` of the set and equal to one of them; in every reachable table it is below `associativity` |
| `SimpleCacheModel.SimpleCache.RecordUse` | src/tdt4260/cache_lab/cache_impl/simple_cache.cc:64-72 | the recency loop changes only the counter of the accessed way, which ends at `associativity - 1 - way`; all tags and all other entries and sets are unchanged |
| `SimpleCacheModel.SimpleCache.RecvReq` | src/tdt4260/cache_lab/cache_impl/simple_cache.cc:45-78 | `reqsReceived` goes up by 1. A miss sends `(req, size)` to memory and changes no entry and no other counter. A hit adds 1 to `reqsServiced`, answers the CPU, keeps all tags, and changes only the counter of the hit way |
| `SimpleCacheModel.SimpleCache.RecvResp` | src/tdt4260/cache_lab/cache_impl/simple_cache.cc:80-107 | given that the line is absent: `respsReceived` goes up by 1, the tag is written into the way numbered by `oldestWay`, the set then holds the line, every other set is unchanged, the table stays valid, and the CPU is answered |
| `SimpleCacheModel.MissThenHit` | src/tdt4260/cache_lab/cache_impl/simple_cache.cc:45-107 | a miss, its response, and the same request again: one forward to memory, two answers to the CPU, one hit counted |
| `IntendedLru.Victim` | src/tdt4260/cache_lab/cache_impl/simple_cache.cc:156-169 | corrected victim choice: a way index whose counter is the largest of the set, the lowest such way on a tie |
| `IntendedLru.TouchIsLru` | src/tdt4260/cache_lab/cache_impl/simple_cache.cc:64-72 | corrected recency update: the accessed way becomes strictly most recent, tags are kept, and the order of every other pair of ways is kept |
| `IntendedLru.FillEvictsLeastRecent` | src/tdt4260/cache_lab/cache_impl/simple_cache.cc:91-104 | corrected fill: the tag goes into a way whose counter was the largest, that way becomes most recent, and every other way keeps its tag |
| `IntendedLru.TouchDivergence` | src/tdt4260/cache_lab/cache_impl/simple_cache.cc:65-72 | as written, touching way 0 of a fresh 2-way set leaves counters 1 and 0; the intended update gives 0 and 1 |
| `IntendedLru.CountersTwoOneZeroReachable` | src/tdt4260/cache_lab/cache_impl/simple_cache.cc:45-107 | a fresh 3-way set, a fill of a non-zero tag t1, then a hit on the cold tag 0 (found in way 1) yields counters 2, 1, 0: the set below is reachable |
| `IntendedLru.VictimDivergence` | src/tdt4260/cache_lab/cache_impl/simple_cache.cc:161-168 | for the reachable 3-way set with counters 2, 1, 0, `oldestWay` yields 2 (the way with the smallest counter) while the intended victim is way 0 |
| `IntendedLru.AsWrittenEvictsMostRecent` | src/tdt4260/cache_lab/cache_impl/simple_cache.cc:91-104 | as written, a 2-way set filled with t1 then t2 evicts t2, the line used last, on the next fill |
| `IntendedLru.IntendedEvictsLeastRecent` | src/tdt4260/cache_lab/cache_impl/simple_cache.cc:91-104 | with the intended policy the same sequence evicts t1 |

## Findings

| source | as written | input that shows it | evidently intended | confidence | as-written member | corrected member |
|---|---|---|---|---|---|---|
| src/tdt4260/cache_lab/cache_impl/simple_cache.cc:65-72 (and :97-104) | each iteration of the recency loop writes `entries.at(index).at(way)`, so sibling ways never age and the accessed way ends at `associativity - 1 - way` | a fresh 2-way set, access to way 0: its counter ends at 1 and way 1 stays at 0 | write `.at(i)`: the accessed way goes to 0, every other way ages by 1 | high; not executed | `CacheSet.TouchAsWritten`, `IntendedLru.TouchDivergence` | `IntendedLru.Touch`, `IntendedLru.TouchIsLru` |
| src/tdt4260/cache_lab/cache_impl/simple_cache.cc:161-168 | `oldestWay` returns the largest counter value, which the caller uses as a way index | a 3-way set with counters 2, 1, 0: it returns 2, the way with the smallest counter | return the way at which the largest counter occurs | high; not executed | `CacheSet.MaxLastUsed`, `IntendedLru.VictimDivergence` | `IntendedLru.Victim` |
| src/tdt4260/cache_lab/cache_impl/simple_cache.cc:91-104 | the two rows above together choose the victim | one 2-way set, fills of t1 then t2, then a miss on t3: t2 is evicted | evict t1, the least recently used line | high; not executed | `IntendedLru.AsWrittenEvictsMostRecent` | `IntendedLru.Fill`, `IntendedLru.IntendedEvictsLeastRecent`, `IntendedLru.FillEvictsLeastRecent` |

The class `SimpleCache` keeps the behaviour as written, because it is the model of the
code. The corrected definitions live beside it in `IntendedLru` and are not wired into
the class.

## Left out

- gem5 statistics registration (simple_cache.cc:35-43): the three statistics are plain `nat` fields.
- `DPRINTF` tracing (simple_cache.cc:53-56, 62, 92): it only produces output.
- The bodies of `sendReq`/`sendResp` (simple_cache.cc:171-181) call into the memory and CPU sides. Each call is recorded as a `Message` appended to the ghost field `sent`.
- The `name` and `parent` constructor arguments only label statistics. They are not modelled.
- `Entry` objects allocated with `new` are modelled as values in a sequence of sequences. No entry is ever shared, so nothing about aliasing is lost.
- `simple_cache.hh` is not part of this model. The entry defaults `tag = 0, lastUsed = 0` are assumed.
- Floating-point `std::log2` is replaced by the integer `Bits.Log2`. It is only used on powers of two, where the two agree.
- The source never checks the configuration. The constructor requires `blockSize` and `numSets` to be powers of two and `associativity >= 1`, because the decode and `oldestWay` rely on this.
- Addresses are unsigned 64-bit values (`Addr`). The truncation of the tag to `int` (simple_cache.cc:115) is modelled explicitly and kept: below 2^31 * blockSize * numSets the `int` tag is exact (`AddressDecode.DecodeRoundTripInt`); at or above that bound, addresses 2^32 * blockSize * numSets apart alias to the same set and tag, so a resident line also hits for the other address (`AddressDecode.TagAliasing`). Overflow of the `int` configuration values is not modelled.
- `SimpleCache.RecvResp`: the `assert(!hasLine(index, tag))` at simple_cache.cc:89 is a precondition, since failing it aborts the simulation in builds with assertions enabled; in a build with `NDEBUG` the check disappears and a duplicate tag would be installed, which the model does not cover. The `std::out_of_range` that `.at(way)` at simple_cache.cc:94 could throw is not modelled as an outcome, because `Valid` proves it cannot happen.
- `SimpleCache.HasLine`, `SimpleCache.LineWay`, `SimpleCache.OldestWay` and `SimpleCache.RecordUse` require their set index to be below `numSets`, where `.at(index)` would otherwise throw. Every caller passes an index computed by `CalculateIndex`.
