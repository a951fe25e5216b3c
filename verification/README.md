# Transactional-outbox fakes: entry storage and publisher

A Dafny model of the two in-memory fakes of the `outboxen` library. Both are
written here as pure state machines over ordered sequences.

- **Entry storage** (`pkg/fake/storage.go`). The state is the ordered list of
  outbox entries. Each entry has a namespace, an id, a key, a payload, a
  processor id and an optional lease deadline.
  - `Publish` appends one unclaimed entry per message.
  - `ClaimEntries` is a single sweep. It reads the clock once and leases every
    claimable entry to the caller.
  - `GetClaimedEntries` returns the first entries owned by a processor, in
    insertion order.
  - `DeleteEntries` filters entries out by id.
  - `CountEntries` returns the number of entries.
- **Publisher** (`pkg/fake/publisher.go`). The state is an append-only log of
  messages, each tagged with its namespace. The log can be read, counted and
  drained with `Clear`.

Modelling choices:
- The read-write lock is modelled by making every call one pure function from
  the old state to the new state and its result. This makes each call atomic.
- Time is an `int`. The clock reading is an explicit `now` parameter. Go's
  `now.Before(deadline)` is `now < deadline`.
- The nullable deadline pointer is `Option<int>`.
- The namespace, which the source reads from the context, is an explicit
  parameter.
- The source generates ids with `uuid.NewString()`. Here the ids are a
  parameter of `Storage.Publish`. Its precondition `FreshIds` requires them to
  be pairwise distinct and unused, which is what a uuid generator provides.
- Keys and payloads are immutable `seq<bv8>`.

Files:
- `wrappers.dfy`: `Option`.
- `outbox.dfy`: the producer `Message`. `pkg/outbox` is not part of this model
  beyond this shape.
- `storage.dfy`: module `Storage`, the data model and the operations.
- `storage_properties.dfy`: module `StorageProperties`, lemmas relating calls.
- `publisher.dfy`: module `Publishing`, the publisher and its lemmas.
- `scenarios.dfy`: module `Scenarios`, two end-to-end runs of the protocol.

Two behaviours of the code are easy to miss:
- **Batch size.** A batch size of zero or less still returns one entry
  whenever the caller owns any, because `len(entries) >= batchSize` is
  checked only after the append (`pkg/fake/storage.go:87-96`). The effective
  cap is `max(batchSize, 1)` (`Storage.BatchCap`, stated by
  `StorageProperties.FetchSize`).
- **Empty processor id.** Ownership is plain string equality
  (`pkg/fake/storage.go:83`). So fetching with `""` returns unclaimed entries.
  A claim made with `""` leaves every entry it touches claimable
  (`StorageProperties.EmptyProcessorClaimLeavesClaimable`).

## Model

| member | source | states |
|---|---|---|
| Storage.NewEntries | pkg/fake/storage.go:45-52 | one new entry per message, in message order, with the given namespace, the supplied id, the message's key and payload, an empty processor id and no deadline |
| Storage.Publish | pkg/fake/storage.go:39-55 | the old entries stay as a prefix, unchanged; exactly `len(messages)` new unclaimed entries follow in message order; fresh ids keep all ids unique |
| Storage.ClaimSweep | pkg/fake/storage.go:62-70 | with one clock reading, each claimable entry gets the caller's processor id and deadline; each entry under a live lease is left exactly as it was |
| Storage.ClaimEntries | pkg/fake/storage.go:58-73 | length, order, ids, namespaces, keys and payloads are preserved; an entry stays the same iff its lease is live (or it already carries exactly the new lease); every claimable entry is leased to the caller |
| Storage.Scan | pkg/fake/storage.go:82-97 | the fetch loop, which breaks once the batch is full, returns the already collected entries followed by the first owned entries up to the cap |
| Storage.GetClaimedEntries | pkg/fake/storage.go:76-100 | the result is the first `max(batchSize, 1)` views of entries whose processor id equals the argument, in insertion order; at most `batchSize` entries when `batchSize >= 1` |
| Storage.Without | pkg/fake/storage.go:107-123 | an entry survives iff it was present and its id is not listed; the result is never longer |
| Storage.DeleteEntries | pkg/fake/storage.go:103-126 | the new state holds exactly the old entries whose id is not listed |
| StorageProperties.CountAfterPublish | pkg/fake/storage.go:45-52 | the count grows by exactly the number of published messages |
| StorageProperties.CountTracksPublished | pkg/fake/storage.go:129-134 | over any run of publishes, the count equals the starting count plus the total number of messages published |
| StorageProperties.NoEarlyRenewal | pkg/fake/storage.go:64 | a claim before an owned entry's deadline leaves that entry unchanged, even when the holder itself re-claims |
| StorageProperties.ExpiredLeaseIsTakenOver | pkg/fake/storage.go:64-69 | once `now` reaches the deadline, any processor's claim takes the entry with the new deadline |
| StorageProperties.ClaimIsExclusive | pkg/fake/storage.go:62-70 | after a claim by a non-empty processor with a future deadline, nothing is claimable at that instant, so a competing claim changes nothing |
| StorageProperties.EmptyProcessorClaimLeavesClaimable | pkg/fake/storage.go:64-69 | a claim with the empty processor id leaves every entry it touched claimable at any time |
| StorageProperties.ClaimKeepsUniqueIds | pkg/fake/storage.go:63-70 | claiming keeps ids unique |
| StorageProperties.MatchesAppend | pkg/fake/storage.go:82-86 | the ownership filter works entry by entry and keeps insertion order |
| StorageProperties.MatchesSound | pkg/fake/storage.go:83-92 | every view the ownership filter lists comes from an entry owned by the processor |
| StorageProperties.MatchesComplete | pkg/fake/storage.go:83-92 | every entry owned by the processor appears in the ownership filter |
| StorageProperties.MatchesIgnoresDeadlines | pkg/fake/storage.go:83 | ownership does not depend on lease deadlines |
| StorageProperties.FetchReturnsOnlyOwned | pkg/fake/storage.go:83-96 | a fetch returns only views of entries the caller owns at call time, and at most `batchSize` of them when `batchSize >= 1` |
| StorageProperties.FetchSize | pkg/fake/storage.go:87-96 | a fetch returns `min(k, max(batchSize, 1))` entries, where `k` is the number of owned entries; a non-positive batch size still returns one entry when any is owned |
| StorageProperties.FetchIgnoresDeadlines | pkg/fake/storage.go:82-97 | two states that differ only in deadlines give the same fetch result |
| StorageProperties.ClaimedEntriesAreVisible | pkg/fake/storage.go:62-70 | after a claim, every entry that was claimable is owned by the claimer, and a fetch by the claimer with a batch size of at least the entry count returns it |
| StorageProperties.DeleteKeepsOrder | pkg/fake/storage.go:107-123 | deletion works entry by entry, so relative order is kept |
| StorageProperties.DeleteUnknownIsNoop | pkg/fake/storage.go:108-121 | ids that name no entry are ignored: the entries are unchanged |
| StorageProperties.DeleteIsIdempotent | pkg/fake/storage.go:103-126 | repeating a delete with the same ids is a no-op |
| StorageProperties.DeleteKeepsUniqueIds | pkg/fake/storage.go:107-123 | deleting keeps ids unique |
| StorageProperties.DeleteOneCount | pkg/fake/storage.go:107-123 | with unique ids, deleting one entry's id lowers the count by exactly one |
| Publishing.Tag | pkg/fake/publisher.go:34-40 | one record per message, in order, each carrying the message and the namespace |
| Publishing.Publish | pkg/fake/publisher.go:29-46 | the old log stays as a prefix; exactly `len(messages)` tagged records follow in message order |
| Publishing.Clear | pkg/fake/publisher.go:71-80 | returns the log held before the call and leaves a publisher whose count is 0 |
| Publishing.PublishNothingIsNoop | pkg/fake/publisher.go:34-43 | publishing zero messages leaves the publisher unchanged |
| Publishing.CountAfterPublish | pkg/fake/publisher.go:62-67 | the count equals the snapshot length and grows by exactly the batch size |
| Publishing.SnapshotAfterPublish | pkg/fake/publisher.go:49-59 | after a publish, the snapshot is the earlier snapshot followed by the new batch's records |
| Publishing.ClearIsIdempotent | pkg/fake/publisher.go:76-79 | a second clear in a row returns nothing and leaves the state as the first clear left it |
| Publishing.ReplayAppends | pkg/fake/publisher.go:43 | any run of publishes appends exactly the records of its calls, in call order |
| Publishing.ClearReturnsSinceLastClear | pkg/fake/publisher.go:71-80 | a clear returns exactly the records published since the previous clear, and the count is 0 afterwards |
| Scenarios.PublishClaimFetchDelete | pkg/fake/storage.go:39-134 | publish k1, k2, k3, claim them by p1; a fetch of 2 returns k1 then k2; deleting k1's id leaves 2 entries |
| Scenarios.ExpiredLeasesMoveToAnotherProcessor | pkg/fake/storage.go:58-100 | after p1's leases expire, a claim by p2 takes all of them: p1's fetch is empty and p2's fetch returns what p1 held, in order |

## Left out

- Locking (`sync.RWMutex`): each call is one atomic step. Interleavings are not modelled.
- Logging (`logr` calls in the publisher): it has no effect on state.
- `uuid.NewString()`: replaced by caller-supplied ids under the `FreshIds` precondition.
- `context.Context` and `outbox.NamespaceFromContext`: replaced by an explicit namespace. Cancellation is never checked by the source either.
- The `Clock` interface and `time.Time`: replaced by an integer `now`. Monotonic-clock details of Go's time are not modelled.
- The ignored transaction argument of `EntryStorage.Publish`.
- Byte-slice aliasing: keys and payloads are immutable values here. In Go, stored entries and publisher records keep the producer's own `Key`/`Payload` slices (`pkg/fake/storage.go:49-50`, `pkg/fake/publisher.go:37`); claimed entries share those slices with the stored entries (`pkg/fake/storage.go:87-92`); and the copy `GetPublished` returns is shallow, so its byte slices are shared with the log (`pkg/fake/publisher.go:55`).
- The nil-versus-empty distinction of Go slices: `GetClaimedEntries` (`pkg/fake/storage.go:77`) and `Clear` (`pkg/fake/publisher.go:76-77`) can return `nil` in Go; here they return an empty sequence.
- Go's 64-bit `int` for `batchSize` and the counts: integers are unbounded. No realistic entry count reaches the 64-bit limit.
- Storage.CountEntries: has no contract of its own. Its meaning is stated by `StorageProperties.CountAfterPublish`, `CountTracksPublished` and `DeleteOneCount`.
- Publishing.GetPublished: has no contract of its own. Returning a copy is the same as returning the value in a model without aliasing. Its meaning is stated by `Publishing.SnapshotAfterPublish` and `Publishing.Clear`.
- Publishing.GetPublishedCount: has no contract of its own. Its meaning is stated by `Publishing.CountAfterPublish` and `Publishing.ClearReturnsSinceLastClear`.
