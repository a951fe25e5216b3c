/**
 The in-memory publisher fake: an append-only log of published messages,
 each tagged with the namespace it was published under. It can be read,
 counted, and drained. Each operation is one atomic step, a pure function of
 the old log.
 */
module Publishing {
  import opened Outbox

  /** A message as recorded, with its namespace. */
  datatype PublishedMessage = PublishedMessage(message: Message, namespace: string)

  /** The publisher's whole state: the log in insertion order. */
  datatype Publisher = Publisher(published: seq<PublishedMessage>)

  /** A publisher that has recorded nothing. */
  const Fresh := Publisher([])

  /** The records for one batch: one per message, in order, all tagged. */
  function Tag(namespace: string, messages: seq<Message>): (r: seq<PublishedMessage>)
    ensures |r| == |messages|
    ensures forall i :: 0 <= i < |r| ==> r[i].message == messages[i] && r[i].namespace == namespace
  {
    if |messages| == 0 then []
    else [PublishedMessage(messages[0], namespace)] + Tag(namespace, messages[1..])
  }

  /** Appends one tagged record per message after everything already logged. */
  function Publish(p: Publisher, namespace: string, messages: seq<Message>): (p': Publisher)
    ensures |p'.published| == |p.published| + |messages|
    ensures p.published <= p'.published
    ensures forall i :: |p.published| <= i < |p'.published| ==>
      p'.published[i] == PublishedMessage(messages[i - |p.published|], namespace)
  {
    var batch := Tag(namespace, messages);
    var log := p.published + batch;
    assert forall i :: |p.published| <= i < |log| ==> log[i] == batch[i - |p.published|];
    Publisher(log)
  }

  /** A snapshot of the log. */
  function GetPublished(p: Publisher): seq<PublishedMessage> {
    p.published
  }

  /** The number of records in the log. */
  function GetPublishedCount(p: Publisher): nat {
    |p.published|
  }

  /** Drains the log: returns what it held and an empty publisher. */
  function Clear(p: Publisher): (r: (seq<PublishedMessage>, Publisher))
    ensures r.0 == GetPublished(p)
    ensures GetPublishedCount(r.1) == 0
  {
    (p.published, Fresh)
  }

  // ---------------------------------------------------------------------------
  // Properties

  /** Publishing nothing leaves the log as it was. */
  lemma PublishNothingIsNoop(p: Publisher, namespace: string)
    ensures Publish(p, namespace, []) == p
  {
  }

  /** The count equals the log length and grows by the batch size. */
  lemma CountAfterPublish(p: Publisher, namespace: string, messages: seq<Message>)
    ensures GetPublishedCount(Publish(p, namespace, messages)) == GetPublishedCount(p) + |messages|
    ensures GetPublishedCount(p) == |GetPublished(p)|
  {
  }

  /** A snapshot after publishing is the earlier snapshot followed by the
      new batch's records. */
  lemma SnapshotAfterPublish(p: Publisher, namespace: string, messages: seq<Message>)
    ensures GetPublished(Publish(p, namespace, messages)) == GetPublished(p) + Tag(namespace, messages)
  {
  }

  /** A second clear in a row returns nothing. */
  lemma ClearIsIdempotent(p: Publisher)
    ensures Clear(Clear(p).1).0 == []
    ensures Clear(Clear(p).1).1 == Clear(p).1
  {
  }

  /** One producer call to the publisher. */
  datatype PublishCall = PublishCall(namespace: string, messages: seq<Message>)

  /** Performs `calls` one after another, starting from `p`. */
  function Replay(p: Publisher, calls: seq<PublishCall>): Publisher
    decreases |calls|
  {
    if |calls| == 0 then p
    else Replay(Publish(p, calls[0].namespace, calls[0].messages), calls[1..])
  }

  /** The records `calls` produce, batch after batch. */
  function Recorded(calls: seq<PublishCall>): seq<PublishedMessage>
    decreases |calls|
  {
    if |calls| == 0 then []
    else Tag(calls[0].namespace, calls[0].messages) + Recorded(calls[1..])
  }

  /** Replaying calls appends exactly their records, in call order. */
  lemma {:induction false} ReplayAppends(p: Publisher, calls: seq<PublishCall>)
    ensures GetPublished(Replay(p, calls)) == GetPublished(p) + Recorded(calls)
    decreases |calls|
  {
    if |calls| == 0 {
      assert GetPublished(p) + [] == GetPublished(p);
    } else {
      var q := Publish(p, calls[0].namespace, calls[0].messages);
      var batch := Tag(calls[0].namespace, calls[0].messages);
      var rest := Recorded(calls[1..]);
      ReplayAppends(q, calls[1..]);
      SnapshotAfterPublish(p, calls[0].namespace, calls[0].messages);
      calc {
        GetPublished(Replay(p, calls));
        GetPublished(Replay(q, calls[1..]));
        GetPublished(q) + rest;
        (GetPublished(p) + batch) + rest;
        GetPublished(p) + (batch + rest);
        GetPublished(p) + Recorded(calls);
      }
    }
  }

  /** Clear returns exactly what was published since the previous clear,
      and leaves the count at zero. */
  lemma ClearReturnsSinceLastClear(p: Publisher, calls: seq<PublishCall>)
    ensures Clear(Replay(Clear(p).1, calls)).0 == Recorded(calls)
    ensures GetPublishedCount(Clear(Replay(Clear(p).1, calls)).1) == 0
  {
    ReplayAppends(Clear(p).1, calls);
    assert [] + Recorded(calls) == Recorded(calls);
  }
}
