/** The Message record and its schema: which fields are required, which have defaults,
    and when saving a document succeeds. */
module MessageModel {
  import opened Wrappers
  import opened Accounts

  type MessageId = string

  /** A message document as stored and as sent over the wire. The sender and receiver
      are optional because a document read back from the store is not re-validated before
      the handlers look at it; an absent `content` is represented by the empty string,
      which the schema's required check treats the same way. */
  datatype Message = Message(
    id: MessageId,
    content: string,
    sender: Option<UserId>,
    receiver: Option<UserId>,
    timestamp: nat,
    seen: bool)

  /** The schema's required fields: `content` (a String, so it must also be non-empty),
      `sender` and `receiver`. */
  predicate SatisfiesSchema(m: Message) {
    m.content != "" && m.sender.Some? && m.receiver.Some?
  }

  /** Every document is filed under its own `_id`. */
  predicate KeyedById(st: map<MessageId, Message>) {
    forall id :: id in st ==> st[id].id == id
  }

  /** The message collection. */
  type Store = st: map<MessageId, Message> | KeyedById(st) witness map[]

  /** The ids of the messages in a list. */
  function IdsOf(ms: seq<Message>): set<MessageId> {
    set m | m in ms :: m.id
  }

  /** No two messages of a list share an id. */
  predicate DistinctIds(ms: seq<Message>) {
    forall i, j :: 0 <= i < j < |ms| ==> ms[i].id != ms[j].id
  }

  /** The fields passed to the Message constructor; `None` is a field left out. */
  datatype Draft = Draft(
    content: Option<string>,
    sender: Option<UserId>,
    receiver: Option<UserId>,
    timestamp: Option<nat>,
    seen: Option<bool>)

  /** Builds a document from a draft, filling in the schema's defaults: `_id` comes from
      the id generator (`freshId`), `timestamp` from the clock (`now`), `seen` is false. */
  function Create(d: Draft, freshId: MessageId, now: nat): (m: Message)
    ensures m.id == freshId
    ensures d.seen.None? ==> !m.seen
    ensures d.seen.Some? ==> m.seen == d.seen.value
    ensures d.timestamp.None? ==> m.timestamp == now
    ensures d.timestamp.Some? ==> m.timestamp == d.timestamp.value
    ensures m.sender == d.sender && m.receiver == d.receiver
    ensures d.content.Some? ==> m.content == d.content.value
    ensures SatisfiesSchema(m) <==>
      d.content.Some? && d.content.value != "" && d.sender.Some? && d.receiver.Some?
  {
    Message(freshId, d.content.GetOr(""), d.sender, d.receiver,
            d.timestamp.GetOr(now), d.seen.GetOr(false))
  }

  /** Saving a new document: validation runs first, then the insert, which fails on a
      duplicate `_id`. On failure the store is untouched (`None`). */
  function Insert(st: Store, m: Message): (r: Option<Store>)
    ensures r.Some? <==> SatisfiesSchema(m) && m.id !in st
    ensures r.Some? ==> r.value.Keys == st.Keys + {m.id} && r.value[m.id] == m
    ensures r.Some? ==> forall id :: id in st ==> r.value[id] == st[id]
  {
    if SatisfiesSchema(m) && m.id !in st then Some(st[m.id := m]) else None
  }

  /** Saving a document that was read from the store: validation runs on the whole
      document again, and on success it replaces the stored one. */
  function Replace(st: Store, m: Message): (r: Option<Store>)
    requires m.id in st
    ensures r.Some? <==> SatisfiesSchema(m)
    ensures r.Some? ==> r.value.Keys == st.Keys && r.value[m.id] == m
    ensures r.Some? ==> forall id :: id in st && id != m.id ==> r.value[id] == st[id]
  {
    if SatisfiesSchema(m) then Some(st[m.id := m]) else None
  }
}
