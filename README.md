# calanggo-server core in Dafny

A model of the core of the calanggo-server URL shortener, with proofs about it:

- `Base62` (base62.dfy): the identifier codec. It turns a 64-bit unsigned integer into a
  string over the alphabet `0-9A-Za-z`: the least significant digit is emitted first and
  the buffer is then reversed in place. It also reads a token back, with wrapping
  `uint64` arithmetic. The specification functions are `Numeral`, `Value` and `DecodeResult`.
  The loop-based methods `Encode`, `Decode` and `Reverse` are proved against them.
- `Domain` (domain.dfy): the `Link` record and its constructor `NewLink`.
- `Repository` (repository.dfy): the in-memory repository. It is a class holding the
  map from code to link and the visit queue, a `seq` bounded at 100 entries.
  `WorkerStep` is one iteration of the background worker's loop. `Drain` runs that
  loop until the queue is empty. Ghost multisets record which increments were
  accepted, applied or dropped. The class invariant `Valid` ties them to the visit
  counters.
- `Service` (service.dfy): the link service over that repository. `CreateShortLink`
  gets the identifier and the creation time as parameters. `GetOriginalURL` resolves a
  code and fires an increment whose result it ignores.
- `Wrappers` (wrappers.dfy): the error variants, `Result`, `Outcome` and `Option`.

Two points worth knowing:

- `CreateShortLink` rejects only the empty string. A blank URL such as `" "` is accepted, as the code does.
- The alphabet's 62-character literal is written as the concatenation of its three
  runs (digits, upper case, lower case). The resulting constant is the same.

## Model

Rows marked "(proof helper)" are arithmetic or bookkeeping lemmas that the
proofs of the other rows use; they cite the lines whose proofs need them.

| member | source | states |
|---|---|---|
| `Base62.AlphabetIncreasing` | pkg/base62/base62.go:8-9 | the alphabet has 62 characters in strictly increasing order, so none repeats |
| `Base62.IndexRune` | pkg/base62/base62.go:30 | the index lookup returns -1 or a position inside the searched string |
| `Base62.IndexRuneFirst` | pkg/base62/base62.go:30-31 | the index lookup is -1 exactly when the character is absent; otherwise it is the character's first position |
| `Base62.IndexOfDigit` | pkg/base62/base62.go:8-9 | looking up the `d`-th alphabet character gives `d` back |
| `Base62.DigitValue` | pkg/base62/base62.go:30-34 | an alphabet character's index is below 62 and names that character |
| `Base62.Numeral` | pkg/base62/base62.go:11-24 | every numeral has at least one character, and all its characters are in the alphabet |
| `Base62.ReversedAt` | pkg/base62/base62.go:40-46 | reversal keeps the length and moves position `k` to position `len-1-k` |
| `Base62.ReversedLength` | pkg/base62/base62.go:40-46 | reversal keeps the length |
| `Base62.ReversedTwice` | pkg/base62/base62.go:40-46 | reversing twice gives the original string |
| `Base62.Reverse` | pkg/base62/base62.go:40-46 | the two-index in-place swap loop returns the reversed string |
| `Base62.ReversedDigits` | pkg/base62/base62.go:16-23 | for `n > 0`, the least-significant-first digits, reversed, are the numeral of `n` |
| `Base62.Encode` | pkg/base62/base62.go:11-24 | the divide-by-62 loop followed by `reverse` returns the numeral of `id`: `"0"` for 0, otherwise 1 to 11 alphabet characters with no leading `'0'` |
| `Base62.NoLeadingZero` | pkg/base62/base62.go:17-23 | for `n > 0` the numeral does not start with `'0'` |
| `Base62.NumeralLength` | pkg/base62/base62.go:17-21 | a number below 62^k has a numeral of at most k characters |
| `Base62.NumeralLongEnough` | pkg/base62/base62.go:17-21 | a number of at least 62^k has a numeral of more than k characters |
| `Base62.PowAtLeastBase` | pkg/base62/base62.go:9 | (proof helper) a positive power of the base is at least the base |
| `Base62.NumeralAtMost11` | pkg/base62/base62.go:17-21 | every `uint64` encodes to at most 11 characters |
| `Base62.ValueOfNumeral` | pkg/base62/base62.go:11-38 | the base-62 value of the numeral of `n` is `n` |
| `Base62.RoundTrip` | pkg/base62/base62_test.go:56-64 | decoding the encoding of any `uint64` gives that value and no error |
| `Base62.Decode` | pkg/base62/base62.go:26-38 | the accumulate-and-wrap loop fails if some character is outside the alphabet; otherwise it returns the token's value mod 2^64; the empty token gives 0 |
| `Base62.WrappingStep` | pkg/base62/base62.go:34 | wrapping after `*62` and again after `+index` equals one reduction of the exact value |
| `Base62.ModAddMultiple` | pkg/base62/base62.go:34 | (proof helper) adding a multiple of 2^64 leaves the result mod 2^64 unchanged |
| `Base62.DecodeFailsExactly` | pkg/base62/base62.go:29-35 | decoding fails, with InvalidCharacter, exactly when some token character is outside the alphabet |
| `Base62.LeadingZeroIgnored` | pkg/base62/base62.go:29-35 | a leading `'0'` does not change a token's value, so decoding accepts non-canonical numerals |
| `Base62.DecodeWraps` | pkg/base62/base62.go:29-35 | there is no length check: the 11-character numeral of 2^64 decodes to 0 |
| `Base62.SomeDigits` | pkg/base62/base62.go:8 | (proof helper) the alphabet holds `'0'`, `'1'`, `'7'`, `'G'` and `'z'` at positions 0, 1, 7, 16 and 61 |
| `Base62.KnownEncodings` | pkg/base62/base62_test.go:13-17 | 0, 1, 61, 62 and 999 encode to "0", "1", "z", "10" and "G7" |
| `Base62.KnownValue` | pkg/base62/base62_test.go:43-53 | (proof helper) a string that is the numeral of `n` decodes to `n` |
| `Base62.KnownDecodings` | pkg/base62/base62_test.go:36-40 | "0", "1", "z", "10" and "G7" decode to 0, 1, 61, 62 and 999; "" decodes to 0 |
| `Domain.NewLink` | internal/core/domain/link.go:13-21 | the new link has ID and Shortened equal to the code, the given URL and creation time, and 0 visits |
| `Repository.GrowsReflexive` | internal/adapters/repository/memory.go:33-35 | (proof helper) an unchanged map keeps every link |
| `Repository.BumpedGrows` | internal/adapters/repository/memory.go:64-66 | (proof helper) raising one link's visits keeps every link's code, URL and time, and no count decreases |
| `Repository.DequeueKeepsAccounts` | internal/adapters/repository/memory.go:62-68 | dequeuing the head and applying or dropping it keeps the accounting invariant |
| `Repository.MemoryRepository.constructor` | internal/adapters/repository/memory.go:18-27 | a new repository has no links, an empty queue and no recorded increments |
| `Repository.MemoryRepository.Save` | internal/adapters/repository/memory.go:29-39 | a fresh ID stores the link under it and changes nothing else; a taken ID fails with DuplicateKey and keeps the first record; the queue is untouched |
| `Repository.MemoryRepository.GetByShortCode` | internal/adapters/repository/memory.go:41-50 | returns the stored link, whose ID is the code, when the code is stored, and NotFound otherwise; changes nothing |
| `Repository.MemoryRepository.IncrementVisits` | internal/adapters/repository/memory.go:52-59 | appends the code when fewer than 100 are queued; otherwise fails with QueueFull and leaves the queue as it was; never touches the links |
| `Repository.MemoryRepository.WorkerStep` | internal/adapters/repository/memory.go:62-68 | removes the queue's head; a stored code gains exactly one visit with every other link and field unchanged; an unknown code is dropped and the map is unchanged |
| `Repository.MemoryRepository.Drain` | internal/adapters/repository/memory.go:61-69 | after draining the queue, each stored link has gained exactly as many visits as its code had queue entries, and nothing else changed |
| `Repository.CountedGrows` | internal/adapters/repository/memory.go:61-69 | (proof helper) counting queued increments into the links never loses a link or lowers a count |
| `Repository.CountedStep` | internal/adapters/repository/memory.go:62-68 | (proof helper) applying or dropping one more dequeued code extends the count by that code |
| `Repository.VisitsBoundedByAccepted` | internal/adapters/repository/memory.go:52-68 | a link's visits since it was saved never exceed the number of increments the queue accepted for its code |
| `Service.LinkService.constructor` | internal/core/services/link_service.go:18-22 | the service holds the given repository |
| `Service.LinkService.CreateShortLink` | internal/core/services/link_service.go:24-43 | an empty URL fails with EmptyURL and leaves the store alone; a taken code returns the save error and leaves the store alone; otherwise the store gains `NewLink(url, Encode(id), now)` under `Encode(id)` |
| `Service.LinkService.GetOriginalURL` | internal/core/services/link_service.go:45-54 | a missing code fails with NotFound and queues nothing; a stored code returns its original URL, whether or not the increment was queued |
| `Service.LinkService.ShortenThenResolve` | tests/integration_test.go:30-76 | a successful creation followed by resolving its code yields the original URL |

## Left out

- Concurrency. The worker goroutine, the `sync.RWMutex` and the channel's blocking are
  not modelled. Operations run one at a time, and the worker's loop is the explicit
  steps `WorkerStep` and `Drain`.
- Repository.MemoryRepository.WorkerStep: when the queue is empty the real worker blocks.
  The model returns `None` and changes nothing instead.
- Repository.MemoryRepository.Drain: the real loop never ends. The model stops when the
  queue is empty: every queued increment has then been applied or dropped, and
  `Drain`'s `CountedIn` ensures give each stored link's exact count.
- Randomness and the clock. The `math/rand` identifier and `time.Now()` become the
  `id` and `now` parameters of `CreateShortLink`.
- `context.Context` parameters: the in-memory repository does not use them.
- Error message texts: each error is one variant of `Wrappers.Error`.
- Aliasing. The Go map stores `*domain.Link` references, and lookups return the shared
  reference. The model stores links as values, and an increment is visible through later
  lookups.
- Domain.NewLink: `Visits` is a Go `int`, modelled as an unbounded `nat`; overflow
  after 2^63 visits is not modelled.
- Base62.Decode: the token is a sequence of characters. How Go's `range` turns invalid
  UTF-8 into U+FFFD is not modelled.
- The SQLite repository (internal/adapters/repository/sqlite.go) is not part of this
  model, because its behaviour lives in the SQL engine.
- The HTTP handler (internal/adapters/http/handler.go) is not part of this model. It
  is transport plumbing.
- `main.go` is not part of this model. It is bootstrap and configuration.
- internal/core/ports/interfaces.go has no behaviour. The repository and service
  classes follow its method signatures.
