/**
 End-to-end runs of the claim protocol: publish, claim, fetch, delete, and a
 lease handed from one processor to another after it expires.
 */
module Scenarios {
  import opened Wrappers
  import opened Outbox
  import opened Storage
  import opened StorageProperties

  /** Three messages with keys k1, k2, k3 are published and claimed by p1;
      a fetch of two returns k1 and k2 in that order; deleting k1's entry
      leaves two entries. */
  lemma PublishClaimFetchDelete(namespace: string, now: int)
    ensures
      var m1, m2, m3 := Message([1], []), Message([2], []), Message([3], []);
      var s1 := Publish(Empty, namespace, [m1, m2, m3], ["a", "b", "c"]);
      var s2 := ClaimEntries(s1, "p1", now + 10, now);
      && GetClaimedEntries(s2, "p1", 2)
         == [ClaimedEntry(namespace, "a", [1], []), ClaimedEntry(namespace, "b", [2], [])]
      && CountEntries(DeleteEntries(s2, ["a"])) == 2
  {
    var m1, m2, m3 := Message([1], []), Message([2], []), Message([3], []);
    var s1 := Publish(Empty, namespace, [m1, m2, m3], ["a", "b", "c"]);
    var s2 := ClaimEntries(s1, "p1", now + 10, now);
    var e1 := Entry(namespace, "a", [1], [], "p1", Some(now + 10));
    var e2 := Entry(namespace, "b", [2], [], "p1", Some(now + 10));
    var e3 := Entry(namespace, "c", [3], [], "p1", Some(now + 10));
    assert s2.entries == [e1, e2, e3];
    assert Matches([e1, e2, e3], "p1") == [View(e1), View(e2), View(e3)] by {
      assert [e1, e2, e3][1..] == [e2, e3];
      assert [e2, e3][1..] == [e3];
      assert [e3][1..] == [];
      assert Matches([e3], "p1") == [View(e3)];
      assert Matches([e2, e3], "p1") == [View(e2), View(e3)];
    }
    assert UniqueIds(s2.entries);
    DeleteOneCount(s2.entries, 0);
  }

  /** Every entry is leased by p1 until `d1`; once the clock reaches `d1`, a
      claim by p2 moves all of them to p2: p1's fetch comes back empty and
      p2's fetch returns what p1 held, in the same order. */
  lemma ExpiredLeasesMoveToAnotherProcessor(s: EntryStorage, d1: int, now: int, d2: int, batchSize: int)
    requires forall i :: 0 <= i < |s.entries| ==>
      s.entries[i].processorId == "p1" && s.entries[i].deadline == Some(d1)
    requires d1 <= now
    ensures var s' := ClaimEntries(s, "p2", d2, now);
      && GetClaimedEntries(s', "p1", batchSize) == []
      && GetClaimedEntries(s', "p2", batchSize) == GetClaimedEntries(s, "p1", batchSize)
  {
    var s' := ClaimEntries(s, "p2", d2, now);
    NoneOwned(s'.entries, "p1");
    OwnerSwap(s.entries, s'.entries, "p1", "p2");
  }

  lemma {:induction false} NoneOwned(es: seq<Entry>, p: string)
    requires forall i :: 0 <= i < |es| ==> es[i].processorId != p
    ensures Matches(es, p) == []
  {
    if |es| > 0 {
      assert forall i :: 0 <= i < |es[1..]| ==> es[1..][i] == es[i + 1];
      NoneOwned(es[1..], p);
    }
  }

  /** If `b` is `a` with every entry moved from owner `p` to owner `q`, the
      views `q` sees in `b` are the views `p` saw in `a`. */
  lemma {:induction false} OwnerSwap(a: seq<Entry>, b: seq<Entry>, p: string, q: string)
    requires |a| == |b|
    requires forall i :: 0 <= i < |a| ==>
      a[i].processorId == p && b[i].processorId == q && View(a[i]) == View(b[i])
    ensures Matches(b, q) == Matches(a, p)
  {
    if |a| > 0 {
      assert forall i :: 0 <= i < |a[1..]| ==> a[1..][i] == a[i + 1] && b[1..][i] == b[i + 1];
      OwnerSwap(a[1..], b[1..], p, q);
    }
  }
}
