/**
 Properties of the entry storage that relate several calls, or a call to an
 independent characterisation of its result: lease exclusivity and expiry,
 what a fetch can return, order preservation, and idempotent deletion.
 */
module StorageProperties {
  import opened Wrappers
  import opened Outbox
  import opened Storage

  // ---------------------------------------------------------------------------
  // Publish and count

  /** Each publish grows the count by exactly the number of messages. */
  lemma CountAfterPublish(s: EntryStorage, namespace: string, messages: seq<Message>, ids: seq<string>)
    requires |ids| == |messages|
    requires FreshIds(s.entries, ids)
    ensures CountEntries(Publish(s, namespace, messages, ids)) == CountEntries(s) + |messages|
  {
  }

  /** One producer call: a namespace, its messages and the ids generated for them. */
  datatype PublishCall = PublishCall(namespace: string, messages: seq<Message>, ids: seq<string>)

  /** Total number of messages over a sequence of producer calls. */
  function TotalMessages(calls: seq<PublishCall>): nat {
    if |calls| == 0 then 0 else |calls[0].messages| + TotalMessages(calls[1..])
  }

  /** `states[i + 1]` is what publishing `calls[i]` does to `states[i]`. */
  predicate PublishTrace(states: seq<EntryStorage>, calls: seq<PublishCall>) {
    && |states| == |calls| + 1
    && forall i :: 0 <= i < |calls| ==>
         && |calls[i].ids| == |calls[i].messages|
         && FreshIds(states[i].entries, calls[i].ids)
         && states[i + 1] == Publish(states[i], calls[i].namespace, calls[i].messages, calls[i].ids)
  }

  /** Over any run of publishes, the count grows by the total number of
      messages published; from an empty storage it equals that total. */
  lemma {:induction false} CountTracksPublished(states: seq<EntryStorage>, calls: seq<PublishCall>)
    requires PublishTrace(states, calls)
    ensures CountEntries(states[|calls|]) == CountEntries(states[0]) + TotalMessages(calls)
    decreases |calls|
  {
    if |calls| > 0 {
      var k := |calls| - 1;
      assert PublishTrace(states[..k + 1], calls[..k]);
      CountTracksPublished(states[..k + 1], calls[..k]);
      TotalMessagesSplit(calls[..k], calls[k..]);
      assert calls[..k] + calls[k..] == calls;
      assert TotalMessages(calls[k..]) == |calls[k].messages|;
    }
  }

  lemma {:induction false} TotalMessagesSplit(a: seq<PublishCall>, b: seq<PublishCall>)
    ensures TotalMessages(a + b) == TotalMessages(a) + TotalMessages(b)
  {
    if |a| > 0 {
      assert (a + b)[1..] == a[1..] + b;
      TotalMessagesSplit(a[1..], b);
    } else {
      assert a + b == b;
    }
  }

  // ---------------------------------------------------------------------------
  // Claiming

  /** A live lease cannot be renewed early, not even by its holder: a claim
      made before the deadline leaves the entry exactly as it was. */
  lemma NoEarlyRenewal(s: EntryStorage, i: nat, processorId: string, claimDeadline: int, now: int)
    requires i < |s.entries|
    requires s.entries[i].processorId != ""
    requires s.entries[i].deadline.Some? && now < s.entries[i].deadline.value
    ensures ClaimEntries(s, processorId, claimDeadline, now).entries[i] == s.entries[i]
  {
  }

  /** Once a lease has expired (`now` reached its deadline), any processor's
      claim takes the entry over with the new deadline. */
  lemma ExpiredLeaseIsTakenOver(s: EntryStorage, i: nat, processorId: string, claimDeadline: int, now: int)
    requires i < |s.entries|
    requires s.entries[i].deadline.Some? && s.entries[i].deadline.value <= now
    ensures ClaimEntries(s, processorId, claimDeadline, now).entries[i].processorId == processorId
    ensures ClaimEntries(s, processorId, claimDeadline, now).entries[i].deadline == Some(claimDeadline)
  {
  }

  /** A claim with a real processor id and a deadline in the future leaves
      no entry claimable at `now`; so a competing claim at the same instant,
      by any processor, changes nothing. */
  lemma ClaimIsExclusive(s: EntryStorage, p: string, d: int, q: string, d': int, now: int)
    requires p != "" && now < d
    ensures forall i :: 0 <= i < |s.entries| ==> !Claimable(ClaimEntries(s, p, d, now).entries[i], now)
    ensures ClaimEntries(ClaimEntries(s, p, d, now), q, d', now) == ClaimEntries(s, p, d, now)
  {
  }

  /** A claim made with the empty processor id does not take anything: every
      entry it touches stays claimable at every later (or earlier) time. */
  lemma EmptyProcessorClaimLeavesClaimable(s: EntryStorage, d: int, now: int, later: int)
    ensures forall i :: 0 <= i < |s.entries| && Claimable(s.entries[i], now) ==>
      Claimable(ClaimEntries(s, "", d, now).entries[i], later)
  {
  }

  /** Claiming changes neither the ids nor the order, so unique ids stay unique. */
  lemma ClaimKeepsUniqueIds(s: EntryStorage, p: string, d: int, now: int)
    requires UniqueIds(s.entries)
    ensures UniqueIds(ClaimEntries(s, p, d, now).entries)
  {
  }

  // ---------------------------------------------------------------------------
  // Fetching claimed entries

  /** Matches distributes over concatenation: ownership is decided entry by
      entry and insertion order is kept. */
  lemma {:induction false} MatchesAppend(a: seq<Entry>, b: seq<Entry>, p: string)
    ensures Matches(a + b, p) == Matches(a, p) + Matches(b, p)
  {
    if |a| > 0 {
      assert (a + b)[1..] == a[1..] + b;
      MatchesAppend(a[1..], b, p);
    } else {
      assert a + b == b;
    }
  }

  /** Everything Matches lists is the view of an entry owned by `p`. */
  lemma {:induction false} MatchesSound(es: seq<Entry>, p: string, c: ClaimedEntry)
    requires c in Matches(es, p)
    ensures exists j :: 0 <= j < |es| && es[j].processorId == p && View(es[j]) == c
  {
    if |es| > 0 && !(es[0].processorId == p && View(es[0]) == c) {
      MatchesSound(es[1..], p, c);
      var j :| 0 <= j < |es[1..]| && es[1..][j].processorId == p && View(es[1..][j]) == c;
      assert es[j + 1] == es[1..][j];
    }
  }

  /** Every entry owned by `p` appears in Matches. */
  lemma {:induction false} MatchesComplete(es: seq<Entry>, p: string, j: nat)
    requires j < |es| && es[j].processorId == p
    ensures View(es[j]) in Matches(es, p)
  {
    if j > 0 {
      assert es[1..][j - 1] == es[j];
      MatchesComplete(es[1..], p, j - 1);
    }
  }

  /** Two entry sequences that agree on everything but lease deadlines. */
  predicate SameButDeadlines(a: seq<Entry>, b: seq<Entry>) {
    && |a| == |b|
    && forall i :: 0 <= i < |a| ==> a[i] == b[i].(deadline := a[i].deadline)
  }

  lemma {:induction false} MatchesIgnoresDeadlines(a: seq<Entry>, b: seq<Entry>, p: string)
    requires SameButDeadlines(a, b)
    ensures Matches(a, p) == Matches(b, p)
  {
    if |a| > 0 {
      assert SameButDeadlines(a[1..], b[1..]);
      MatchesIgnoresDeadlines(a[1..], b[1..], p);
    }
  }

  /** A fetch returns only entries owned by the caller at call time, and at
      most `batchSize` of them when `batchSize` is positive. */
  lemma FetchReturnsOnlyOwned(s: EntryStorage, p: string, batchSize: int)
    ensures batchSize >= 1 ==> |GetClaimedEntries(s, p, batchSize)| <= batchSize
    ensures forall c :: c in GetClaimedEntries(s, p, batchSize) ==>
      exists j :: 0 <= j < |s.entries| && s.entries[j].processorId == p && View(s.entries[j]) == c
  {
    forall c | c in GetClaimedEntries(s, p, batchSize)
      ensures exists j :: 0 <= j < |s.entries| && s.entries[j].processorId == p && View(s.entries[j]) == c
    {
      MatchesSound(s.entries, p, c);
    }
  }

  /** The size of a fetch is `min(k, max(batchSize, 1))` where `k` is the
      number of owned entries; in particular a non-positive batch size still
      returns one entry whenever the caller owns any. */
  lemma FetchSize(s: EntryStorage, p: string, batchSize: int)
    ensures var k := |Matches(s.entries, p)|;
      |GetClaimedEntries(s, p, batchSize)| == if k <= BatchCap(batchSize) then k else BatchCap(batchSize)
    ensures batchSize <= 0 ==>
      |GetClaimedEntries(s, p, batchSize)| == if |Matches(s.entries, p)| == 0 then 0 else 1
  {
  }

  /** A fetch ignores lease freshness: changing only deadlines does not
      change what is returned. */
  lemma FetchIgnoresDeadlines(s: EntryStorage, t: EntryStorage, p: string, batchSize: int)
    requires SameButDeadlines(s.entries, t.entries)
    ensures GetClaimedEntries(s, p, batchSize) == GetClaimedEntries(t, p, batchSize)
  {
    MatchesIgnoresDeadlines(s.entries, t.entries, p);
  }

  /** The ownership filter never lists more entries than there are. */
  lemma {:induction false} MatchesLength(es: seq<Entry>, p: string)
    ensures |Matches(es, p)| <= |es|
  {
    if |es| > 0 {
      MatchesLength(es[1..], p);
    }
  }

  /** After a claim by `p`, every entry that was claimable is owned by `p`,
      so a fetch by `p` whose batch size is at least the entry count
      returns it. */
  lemma ClaimedEntriesAreVisible(s: EntryStorage, p: string, d: int, now: int, i: nat)
    requires i < |s.entries| && Claimable(s.entries[i], now)
    ensures View(s.entries[i]) in Matches(ClaimEntries(s, p, d, now).entries, p)
    ensures View(s.entries[i]) in GetClaimedEntries(ClaimEntries(s, p, d, now), p, |s.entries|)
  {
    var s' := ClaimEntries(s, p, d, now);
    MatchesComplete(s'.entries, p, i);
    MatchesLength(s'.entries, p);
    assert GetClaimedEntries(s', p, |s.entries|) == Matches(s'.entries, p);
  }

  // ---------------------------------------------------------------------------
  // Deleting

  /** Deleting distributes over concatenation, so relative order is kept. */
  lemma {:induction false} DeleteKeepsOrder(a: seq<Entry>, b: seq<Entry>, ids: seq<string>)
    ensures Without(a + b, ids) == Without(a, ids) + Without(b, ids)
  {
    if |a| > 0 {
      assert (a + b)[1..] == a[1..] + b;
      DeleteKeepsOrder(a[1..], b, ids);
    } else {
      assert a + b == b;
    }
  }

  /** Ids that name no entry are ignored: the storage is unchanged. */
  lemma {:induction false} DeleteUnknownIsNoop(es: seq<Entry>, ids: seq<string>)
    requires forall e :: e in es ==> e.id !in ids
    ensures Without(es, ids) == es
  {
    if |es| > 0 {
      assert es[0] in es;
      assert forall e :: e in es[1..] ==> e in es;
      DeleteUnknownIsNoop(es[1..], ids);
      assert [es[0]] + es[1..] == es;
    }
  }

  /** Repeating a delete is a no-op. */
  lemma DeleteIsIdempotent(s: EntryStorage, ids: seq<string>)
    ensures DeleteEntries(DeleteEntries(s, ids), ids) == DeleteEntries(s, ids)
  {
    DeleteUnknownIsNoop(DeleteEntries(s, ids).entries, ids);
  }

  /** Deleting keeps unique ids unique. */
  lemma {:induction false} DeleteKeepsUniqueIds(es: seq<Entry>, ids: seq<string>)
    requires UniqueIds(es)
    ensures UniqueIds(Without(es, ids))
  {
    if |es| > 0 {
      assert UniqueIds(es[1..]);
      DeleteKeepsUniqueIds(es[1..], ids);
      var rest := Without(es[1..], ids);
      if es[0].id !in ids {
        forall e | e in rest ensures e.id != es[0].id {
          var k :| 0 <= k < |es[1..]| && es[1..][k] == e;
          assert es[k + 1] == e;
        }
        var r := [es[0]] + rest;
        forall i, j | 0 <= i < j < |r| ensures r[i].id != r[j].id {
          if i == 0 {
            assert r[j] in rest;
          } else {
            assert r[i] == rest[i - 1] && r[j] == rest[j - 1];
          }
        }
      }
    }
  }

  /** Deleting the id of exactly one entry removes exactly that entry. */
  lemma {:induction false} DeleteOneCount(es: seq<Entry>, k: nat)
    requires UniqueIds(es)
    requires k < |es|
    ensures |Without(es, [es[k].id])| == |es| - 1
  {
    var x := es[k].id;
    if k == 0 {
      assert forall e :: e in es[1..] ==> e.id != x by {
        forall e | e in es[1..] ensures e.id != x {
          var j :| 0 <= j < |es[1..]| && es[1..][j] == e;
          assert es[j + 1] == e;
        }
      }
      DeleteUnknownIsNoop(es[1..], [x]);
    } else {
      assert es[0].id != x;
      assert UniqueIds(es[1..]);
      assert es[1..][k - 1] == es[k];
      DeleteOneCount(es[1..], k - 1);
    }
  }
}
