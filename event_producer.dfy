// The transactional-outbox producer: each create, update and delete of a
// transaction appends one event to the outbox, addressed to the configured
// topic and carrying the transaction's id, owner and ledger as strings.
// Relaying the outbox to the broker happens elsewhere and is not modelled.
module Events {
  import opened Results
  import opened Entities
  import opened Formats

  /** The topic used when kafka.topics.transaction-events is not configured. */
  const DefaultTopic := "transaction.events"

  /** The three event classes the producer builds. */
  datatype EventType = TransactionCreated | TransactionUpdated | TransactionDeleted

  /** The eventType each event class reports. */
  function EventTypeName(e: EventType): string {
    match e
    case TransactionCreated => "TRANSACTION_CREATED"
    case TransactionUpdated => "TRANSACTION_UPDATED"
    case TransactionDeleted => "TRANSACTION_DELETED"
  }

  /** The reported type tells the three events apart. */
  lemma EventTypeNamesDistinct(a: EventType, b: EventType)
    ensures EventTypeName(a) == EventTypeName(b) <==> a == b
  {
    if a != b {
      assert EventTypeName(a)[12] != EventTypeName(b)[12];
    }
  }

  /** One outbox row: the topic it is bound for, a fresh event id, and the
      event's payload, whose ids are the Long.toString forms of the entity's. */
  datatype OutboxRecord = OutboxRecord(
    topic: string,
    eventId: nat,
    eventType: EventType,
    transactionId: string,
    userId: string,
    ledgerId: string)

  /** The event the builder makes for a transaction. */
  function EventFor(topic: string, eventId: nat, e: EventType, t: Transaction): OutboxRecord {
    OutboxRecord(topic, eventId, e, LongToString(t.id), LongToString(t.userId), LongToString(t.ledgerId))
  }

  /** The event's payload gives back the transaction's id, owner and ledger:
      each string parses as the Long it was made from. */
  lemma {:induction false} EventCarriesIds(topic: string, eventId: nat, e: EventType, t: Transaction)
    ensures var r := EventFor(topic, eventId, e, t);
      && r.topic == topic && r.eventId == eventId && r.eventType == e
      && ParseLong(r.transactionId) == Some(t.id)
      && ParseLong(r.userId) == Some(t.userId)
      && ParseLong(r.ledgerId) == Some(t.ledgerId)
  {
    LongToStringRoundTrip(t.id);
    LongToStringRoundTrip(t.userId);
    LongToStringRoundTrip(t.ledgerId);
  }

  /** Event ids strictly increase along the outbox. */
  predicate IdsIncreasing(outbox: seq<OutboxRecord>) {
    forall i, j :: 0 <= i < j < |outbox| ==> outbox[i].eventId < outbox[j].eventId
  }

  /** Increasing ids are pairwise distinct: no two outbox rows share an event id. */
  lemma IncreasingIdsDistinct(outbox: seq<OutboxRecord>, i: int, j: int)
    requires IdsIncreasing(outbox)
    requires 0 <= i < |outbox| && 0 <= j < |outbox| && i != j
    ensures outbox[i].eventId != outbox[j].eventId
  {
    if i < j {
      assert outbox[i].eventId < outbox[j].eventId;
    } else {
      assert outbox[j].eventId < outbox[i].eventId;
    }
  }

  /** Different transactions give events with different payloads. */
  lemma {:induction false} PayloadIdentifiesTransaction(topic: string, n: nat, e: EventType, t: Transaction, u: Transaction)
    requires EventFor(topic, n, e, t).transactionId == EventFor(topic, n, e, u).transactionId
    ensures t.id == u.id
  {
    LongToStringInjective(t.id, u.id);
  }

  class TransactionEventProducer {
    /** transactionEventsTopic, injected once. */
    const topic: string
    /** The outbox rows this producer has saved, oldest first. */
    var outbox: seq<OutboxRecord>
    /** The id the next event will carry. */
    var nextEventId: nat

    /** Every saved row goes to this producer's topic, ids increase along the
        outbox, and every id handed out lies below the next one. */
    ghost predicate Valid()
      reads this
    {
      && IdsIncreasing(outbox)
      && (forall i :: 0 <= i < |outbox| ==> outbox[i].topic == topic && outbox[i].eventId < nextEventId)
    }

    /** The topic comes from configuration, or the default when it is absent. */
    constructor (configuredTopic: Option<string>)
      ensures topic == configuredTopic.GetOr(DefaultTopic)
      ensures outbox == [] && nextEventId == 0
      ensures Valid()
    {
      topic := configuredTopic.GetOr(DefaultTopic);
      outbox := [];
      nextEventId := 0;
    }

    /** OutboxEventPublisher.publish: saves one row under a fresh event id. */
    method Publish(e: EventType, t: Transaction)
      requires Valid()
      modifies this
      ensures Valid()
      ensures outbox == old(outbox) + [EventFor(topic, old(nextEventId), e, t)]
      ensures nextEventId == old(nextEventId) + 1
    {
      var record := EventFor(topic, nextEventId, e, t);
      outbox := outbox + [record];
      nextEventId := nextEventId + 1;
      assert forall i :: 0 <= i < |outbox| - 1 ==> outbox[i] == old(outbox)[i];
    }

    /** publishTransactionCreated. */
    method PublishTransactionCreated(t: Transaction)
      requires Valid()
      modifies this
      ensures Valid()
      ensures outbox == old(outbox) + [EventFor(topic, old(nextEventId), TransactionCreated, t)]
      ensures nextEventId == old(nextEventId) + 1
    {
      Publish(TransactionCreated, t);
    }

    /** publishTransactionUpdated. */
    method PublishTransactionUpdated(t: Transaction)
      requires Valid()
      modifies this
      ensures Valid()
      ensures outbox == old(outbox) + [EventFor(topic, old(nextEventId), TransactionUpdated, t)]
      ensures nextEventId == old(nextEventId) + 1
    {
      Publish(TransactionUpdated, t);
    }

    /** publishTransactionDeleted. */
    method PublishTransactionDeleted(t: Transaction)
      requires Valid()
      modifies this
      ensures Valid()
      ensures outbox == old(outbox) + [EventFor(topic, old(nextEventId), TransactionDeleted, t)]
      ensures nextEventId == old(nextEventId) + 1
    {
      Publish(TransactionDeleted, t);
    }
  }
}
