/** The service-map receiver: it turns observed socket exchanges into
    messages, labelling the endpoint with the higher port as the client, keeps
    them in a cache, and on every flush tick hands the whole cache over as one
    batch for trace building and dispatch.

    Each operation runs under the receiver's mutex in the system, so each is one
    atomic step here. */
module ServiceMap {

  newtype uint16 = x: int | 0 <= x < 0x1_0000

  /** Receipt time, read from the clock by the caller. */
  type Timestamp = int

  /** One observed exchange. Empty strings and a zero status code mean "not
      present". */
  datatype Message = Message(
    clientIp: string,
    serverIp: string,
    clientPort: uint16,
    serverPort: uint16,
    clientComm: string,
    serverComm: string,
    statusCode: int,
    op: string,
    path: string,
    traceId: string,
    parentSpanId: string,
    payload: string,
    ts: Timestamp)

  // ---------------------------------------------------------------------------
  // Classifying the endpoints

  /** `m` labels the two observed endpoints by the port rule: the client holds
      the higher (or equal) port, each address keeps its own port, and on equal
      ports the source endpoint is the client. */
  predicate ClassifiedByPort(m: Message, srcIp: string, srcPort: uint16, destIp: string, destPort: uint16)
  {
    && m.clientPort >= m.serverPort
    && multiset{(m.clientIp, m.clientPort), (m.serverIp, m.serverPort)}
       == multiset{(srcIp, srcPort), (destIp, destPort)}
    && (srcPort == destPort ==> m.clientIp == srcIp)
  }

  /** The message for one exchange between `srcIp:srcPort` and `destIp:destPort`,
      received at `now`. */
  function BuildMessage(srcIp: string, srcPort: uint16, destIp: string, destPort: uint16,
                        payload: string, now: Timestamp): (m: Message)
    ensures ClassifiedByPort(m, srcIp, srcPort, destIp, destPort)
    ensures m.payload == payload && m.ts == now
    ensures m.clientComm == "" && m.serverComm == "" && m.statusCode == 0
    ensures m.op == "" && m.path == "" && m.traceId == "" && m.parentSpanId == ""
  {
    if srcPort < destPort then
      Message(destIp, srcIp, destPort, srcPort, "", "", 0, "", "", "", "", payload, now)
    else
      Message(srcIp, destIp, srcPort, destPort, "", "", 0, "", "", "", "", payload, now)
  }

  /** The port rule leaves no choice: two messages that both follow it agree on
      who is client and who is server. */
  lemma ClassificationUnique(m1: Message, m2: Message, srcIp: string, srcPort: uint16, destIp: string, destPort: uint16)
    requires ClassifiedByPort(m1, srcIp, srcPort, destIp, destPort)
    requires ClassifiedByPort(m2, srcIp, srcPort, destIp, destPort)
    ensures m1.clientIp == m2.clientIp && m1.clientPort == m2.clientPort
    ensures m1.serverIp == m2.serverIp && m1.serverPort == m2.serverPort
  {
  }

  /** The lower source port makes the destination the client; otherwise,
      equal ports included, the source is the client. */
  lemma BuildMessageRoles(srcIp: string, srcPort: uint16, destIp: string, destPort: uint16,
                          payload: string, now: Timestamp)
    ensures var m := BuildMessage(srcIp, srcPort, destIp, destPort, payload, now);
      if srcPort < destPort
      then m.clientIp == destIp && m.clientPort == destPort && m.serverIp == srcIp && m.serverPort == srcPort
      else m.clientIp == srcIp && m.clientPort == srcPort && m.serverIp == destIp && m.serverPort == destPort
  {
  }

  /** On distinct ports the classification does not depend on which endpoint
      was reported as the source. */
  lemma BuildMessageSymmetric(aIp: string, aPort: uint16, bIp: string, bPort: uint16,
                              payload: string, now: Timestamp)
    requires aPort != bPort
    ensures BuildMessage(aIp, aPort, bIp, bPort, payload, now) == BuildMessage(bIp, bPort, aIp, aPort, payload, now)
  {
  }

  // ---------------------------------------------------------------------------
  // Batches

  /** All messages of a run of batches, batch after batch. */
  function Flatten(batches: seq<seq<Message>>): seq<Message>
  {
    if batches == [] then [] else batches[0] + Flatten(batches[1..])
  }

  lemma {:induction false} FlattenAppend(batches: seq<seq<Message>>, batch: seq<Message>)
    ensures Flatten(batches + [batch]) == Flatten(batches) + batch
  {
    if batches == [] {
      assert [] + [batch] == [batch];
      assert Flatten([batch]) == batch + Flatten([]);
    } else {
      assert (batches + [batch])[1..] == batches[1..] + [batch];
      FlattenAppend(batches[1..], batch);
    }
  }

  /** No message occurs twice. */
  predicate Distinct(s: seq<Message>)
  {
    forall p, q :: 0 <= p < q < |s| ==> s[p] != s[q]
  }

  lemma {:induction false} InFlatten(batches: seq<seq<Message>>, k: nat)
    requires k < |batches|
    ensures forall m :: m in batches[k] ==> m in Flatten(batches)
  {
    if k > 0 {
      InFlatten(batches[1..], k - 1);
    }
  }

  /** When every message is told apart from the others, no two batches share
      one: each message is handed over once. */
  lemma {:induction false} BatchesDisjoint(batches: seq<seq<Message>>, i: nat, j: nat)
    requires i < j < |batches|
    requires Distinct(Flatten(batches))
    ensures forall m :: m in batches[i] ==> m !in batches[j]
  {
    var head, tail := batches[0], Flatten(batches[1..]);
    assert Flatten(batches) == head + tail;
    assert Distinct(tail) by {
      forall p, q | 0 <= p < q < |tail| ensures tail[p] != tail[q] {
        assert tail[p] == Flatten(batches)[|head| + p] && tail[q] == Flatten(batches)[|head| + q];
      }
    }
    if i == 0 {
      InFlatten(batches[1..], j - 1);
      forall m | m in batches[0] ensures m !in batches[j] {
        var p :| 0 <= p < |head| && head[p] == m;
        forall q | 0 <= q < |tail| ensures tail[q] != m {
          assert Flatten(batches)[p] == m && Flatten(batches)[|head| + q] == tail[q];
        }
      }
    } else {
      BatchesDisjoint(batches[1..], i - 1, j - 1);
    }
  }

  /** A receiver's history (see `Receiver.Valid`) hands each distinct message
      over in at most one batch. */
  lemma HistoryDisjoint(delivered: seq<seq<Message>>, cache: seq<Message>, appended: seq<Message>, i: nat, j: nat)
    requires Flatten(delivered) + cache == appended
    requires Distinct(appended)
    requires i < j < |delivered|
    ensures forall m :: m in delivered[i] ==> m !in delivered[j]
  {
    var done := Flatten(delivered);
    assert Distinct(done) by {
      forall p, q | 0 <= p < q < |done| ensures done[p] != done[q] {
        assert done[p] == appended[p] && done[q] == appended[q];
      }
    }
    BatchesDisjoint(delivered, i, j);
  }

  // ---------------------------------------------------------------------------
  // The receiver

  class Receiver {
    /** Messages received since the last flush. */
    var messageCache: seq<Message>
    /** Whether a downstream traces consumer is attached. */
    var hasTracesConsumer: bool

    /** Every message ever added, in order. */
    ghost var appended: seq<Message>
    /** Every batch ever drained, in order. */
    ghost var delivered: seq<seq<Message>>

    /** Nothing is lost or duplicated: the drained batches followed by the
        cache are exactly the messages added. */
    ghost predicate Valid()
      reads this
    {
      Flatten(delivered) + messageCache == appended
    }

    constructor (hasTracesConsumer: bool)
      ensures Valid()
      ensures messageCache == [] && appended == [] && delivered == []
      ensures this.hasTracesConsumer == hasTracesConsumer
    {
      messageCache := [];
      this.hasTracesConsumer := hasTracesConsumer;
      appended := [];
      delivered := [];
    }

    method AddMessage(msg: Message)
      requires Valid()
      modifies this`messageCache, this`appended
      ensures Valid()
      ensures messageCache == old(messageCache) + [msg]
      ensures appended == old(appended) + [msg]
    {
      messageCache := messageCache + [msg];
      appended := appended + [msg];
    }

    /** Detaches the whole cache as one batch and leaves the cache empty. */
    method Drain() returns (batch: seq<Message>)
      requires Valid()
      modifies this`messageCache, this`delivered
      ensures Valid()
      ensures batch == old(messageCache) && messageCache == []
      ensures delivered == old(delivered) + [batch]
    {
      batch := messageCache;
      messageCache := [];
      delivered := delivered + [batch];
      FlattenAppend(old(delivered), batch);
    }

    /** One flush tick: drain the cache, build traces from the batch and hand
        them to the consumer when there is one and the traces hold a span.
        `countSpans` stands for the span count of the traces built from a
        batch; `dispatched` says whether the consumer was called. */
    method DumpData(countSpans: seq<Message> -> nat) returns (batch: seq<Message>, dispatched: bool)
      requires Valid()
      modifies this`messageCache, this`delivered
      ensures Valid()
      ensures batch == old(messageCache) && messageCache == []
      ensures delivered == old(delivered) + [batch]
      ensures dispatched <==> hasTracesConsumer && countSpans(batch) > 0
    {
      batch := Drain();
      dispatched := hasTracesConsumer && countSpans(batch) > 0;
    }
  }
}
