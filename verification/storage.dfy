/**
 The in-memory entry storage of the transactional outbox.

 The storage is an ordered sequence of entries. Producers append entries with
 `Publish`; processors lease them with `ClaimEntries`, read back the entries
 they own with `GetClaimedEntries`, and remove delivered entries with
 `DeleteEntries`. The read-write lock of the Go implementation is modelled
 by making every operation one pure function from the old state to the new
 state (and its result), so each call is atomic. The clock is an explicit
 integer `now`.
 */
module Storage {
  import opened Wrappers
  import opened Outbox

  /** One staged message together with its lease metadata. An empty
      `processorId` means nobody has claimed it; `deadline` is the end of the
      current lease, absent until the first claim. */
  datatype Entry = Entry(
    namespace: string,
    id: string,
    key: Bytes,
    payload: Bytes,
    processorId: string,
    deadline: Option<int>)

  /** What a processor sees of an entry: everything but the lease. */
  datatype ClaimedEntry = ClaimedEntry(namespace: string, id: string, key: Bytes, payload: Bytes)

  /** The whole state of the storage, in insertion order. */
  datatype EntryStorage = EntryStorage(entries: seq<Entry>)

  /** A storage that holds nothing. */
  const Empty := EntryStorage([])

  /** The processor's view of an entry. */
  function View(e: Entry): ClaimedEntry {
    ClaimedEntry(e.namespace, e.id, e.key, e.payload)
  }

  /** An entry may be claimed at time `now` when nobody owns it, when it has
      no deadline, or when its lease has expired (`now` is not before it). */
  predicate Claimable(e: Entry, now: int) {
    e.processorId == "" || e.deadline.None? || e.deadline.value <= now
  }

  /** Entry ids are pairwise distinct. */
  predicate UniqueIds(es: seq<Entry>) {
    forall i, j :: 0 <= i < j < |es| ==> es[i].id != es[j].id
  }

  /** `ids` are pairwise distinct and none of them is already in use in `es`;
      this is what a fresh identifier generator provides. */
  predicate FreshIds(es: seq<Entry>, ids: seq<string>) {
    && (forall i, j :: 0 <= i < j < |ids| ==> ids[i] != ids[j])
    && (forall i, k :: 0 <= i < |ids| && 0 <= k < |es| ==> ids[i] != es[k].id)
  }

  /** The entries created for a batch of messages, one per message, in order. */
  function NewEntries(namespace: string, messages: seq<Message>, ids: seq<string>): (r: seq<Entry>)
    requires |ids| == |messages|
    ensures |r| == |messages|
    ensures forall i :: 0 <= i < |r| ==>
      && r[i].namespace == namespace
      && r[i].id == ids[i]
      && r[i].key == messages[i].key
      && r[i].payload == messages[i].payload
      && r[i].processorId == ""
      && r[i].deadline == None
  {
    if |messages| == 0 then []
    else
      [Entry(namespace, ids[0], messages[0].key, messages[0].payload, "", None)]
      + NewEntries(namespace, messages[1..], ids[1..])
  }

  /** Appends one unclaimed entry per message, at the end, in message order.
      `ids` are the identifiers the generator hands out for them. */
  function Publish(s: EntryStorage, namespace: string, messages: seq<Message>, ids: seq<string>): (s': EntryStorage)
    requires |ids| == |messages|
    requires FreshIds(s.entries, ids)
    ensures |s'.entries| == |s.entries| + |messages|
    ensures s.entries <= s'.entries
    ensures forall i :: 0 <= i < |messages| ==>
      s'.entries[|s.entries| + i] == Entry(namespace, ids[i], messages[i].key, messages[i].payload, "", None)
    ensures UniqueIds(s.entries) ==> UniqueIds(s'.entries)
  {
    var added := NewEntries(namespace, messages, ids);
    var r := s.entries + added;
    assert forall i :: |s.entries| <= i < |r| ==> r[i] == added[i - |s.entries|];
    EntryStorage(r)
  }

  /** One pass of the claim loop over `es`, reading the clock once (`now`). */
  function ClaimSweep(es: seq<Entry>, processorId: string, claimDeadline: int, now: int): (r: seq<Entry>)
    ensures |r| == |es|
    ensures forall i :: 0 <= i < |es| && Claimable(es[i], now) ==>
      r[i] == es[i].(processorId := processorId, deadline := Some(claimDeadline))
    ensures forall i :: 0 <= i < |es| && !Claimable(es[i], now) ==> r[i] == es[i]
  {
    if |es| == 0 then []
    else
      var e := es[0];
      var e' :=
        if e.processorId != "" && e.deadline.Some? && now < e.deadline.value then e
        else e.(processorId := processorId, deadline := Some(claimDeadline));
      [e'] + ClaimSweep(es[1..], processorId, claimDeadline, now)
  }

  /** Gives every claimable entry to `processorId` with lease end
      `claimDeadline`; entries under a live lease are left alone, whoever
      holds them. Only the lease fields ever change. */
  function ClaimEntries(s: EntryStorage, processorId: string, claimDeadline: int, now: int): (s': EntryStorage)
    ensures |s'.entries| == |s.entries|
    ensures forall i :: 0 <= i < |s.entries| ==> View(s'.entries[i]) == View(s.entries[i])
    ensures forall i :: 0 <= i < |s.entries| ==>
      (s'.entries[i] == s.entries[i] <==>
        !Claimable(s.entries[i], now)
        || (s.entries[i].processorId == processorId && s.entries[i].deadline == Some(claimDeadline)))
    ensures forall i :: 0 <= i < |s.entries| && Claimable(s.entries[i], now) ==>
      s'.entries[i].processorId == processorId && s'.entries[i].deadline == Some(claimDeadline)
  {
    EntryStorage(ClaimSweep(s.entries, processorId, claimDeadline, now))
  }

  /** The reference definition of ownership: the views of all entries whose
      processor id equals `processorId`, in insertion order. */
  function Matches(es: seq<Entry>, processorId: string): seq<ClaimedEntry> {
    if |es| == 0 then []
    else (if es[0].processorId == processorId then [View(es[0])] else []) + Matches(es[1..], processorId)
  }

  /** The number of entries a fetch can return at most: the batch size
      check runs after an entry is appended, so the cap is never below one. */
  function BatchCap(batchSize: int): (n: nat)
    ensures n >= 1 && n >= batchSize
    ensures batchSize >= 1 ==> n == batchSize
  {
    if batchSize < 1 then 1 else batchSize
  }

  /** The first `n` elements of `xs`, or all of them when there are fewer. */
  function Take<T>(xs: seq<T>, n: nat): (r: seq<T>)
    ensures |r| == if n <= |xs| then n else |xs|
    ensures r <= xs
  {
    if n <= |xs| then xs[..n] else xs
  }

  /** The fetch loop: walk `es`, append every owned entry to `acc`, and stop
      as soon as `acc` has reached `batchSize` entries. */
  function Scan(es: seq<Entry>, processorId: string, batchSize: int, acc: seq<ClaimedEntry>): (r: seq<ClaimedEntry>)
    requires |acc| < BatchCap(batchSize)
    ensures r == acc + Take(Matches(es, processorId), BatchCap(batchSize) - |acc|)
    decreases |es|
  {
    if |es| == 0 then acc
    else if es[0].processorId != processorId then
      assert Matches(es, processorId) == Matches(es[1..], processorId);
      Scan(es[1..], processorId, batchSize, acc)
    else
      var acc' := acc + [View(es[0])];
      var rest := Matches(es[1..], processorId);
      var n := BatchCap(batchSize) - |acc|;
      assert Matches(es, processorId) == [View(es[0])] + rest;
      assert Take([View(es[0])] + rest, n) == [View(es[0])] + Take(rest, n - 1);
      if |acc'| >= batchSize then
        assert n == 1;
        acc'
      else
        Scan(es[1..], processorId, batchSize, acc')
  }

  /** The first `max(batchSize, 1)` entries owned by `processorId`, in
      insertion order, whatever the state of their leases. */
  function GetClaimedEntries(s: EntryStorage, processorId: string, batchSize: int): (r: seq<ClaimedEntry>)
    ensures r == Take(Matches(s.entries, processorId), BatchCap(batchSize))
    ensures batchSize >= 1 ==> |r| <= batchSize
  {
    Scan(s.entries, processorId, batchSize, [])
  }

  /** `es` without the entries whose id is listed in `ids`, order kept. */
  function Without(es: seq<Entry>, ids: seq<string>): (r: seq<Entry>)
    ensures |r| <= |es|
    ensures forall e :: e in r <==> e in es && e.id !in ids
  {
    if |es| == 0 then []
    else if es[0].id in ids then Without(es[1..], ids)
    else [es[0]] + Without(es[1..], ids)
  }

  /** Removes every entry whose id is listed; unknown ids are ignored. */
  function DeleteEntries(s: EntryStorage, ids: seq<string>): (s': EntryStorage)
    ensures |s'.entries| <= |s.entries|
    ensures forall e :: e in s'.entries <==> e in s.entries && e.id !in ids
  {
    EntryStorage(Without(s.entries, ids))
  }

  /** The number of entries held, across all namespaces and lease states. */
  function CountEntries(s: EntryStorage): nat {
    |s.entries|
  }
}
