/** The Message model as the message routes use it: `get`, `create` and `markRead`.
    Only the shapes of their results are known (the routes' documented responses), so the
    Ledger below keeps what `get` returns as a map of snapshots and records every state-changing
    call it receives, without saying what such a call does to the stored messages. */
module MessageModel {
  import opened Common

  /** What `get` returns: {id, body, sent_at, read_at, from_user, to_user}. */
  datatype MessageDetail = MessageDetail(
    id: MessageId,
    body: string,
    sentAt: Timestamp,
    readAt: Option<Timestamp>,
    fromUser: Profile,
    toUser: Profile)

  /** What `create` returns: {id, from_username, to_username, body, sent_at}. */
  datatype NewMessage = NewMessage(
    id: MessageId,
    fromUsername: Username,
    toUsername: Username,
    body: string,
    sentAt: Timestamp)

  /** What `markRead` returns: {id, read_at}. */
  datatype ReadReceipt = ReadReceipt(id: MessageId, readAt: Timestamp)

  /** A state-changing call made on the Message model. */
  datatype Call =
    | CreateCall(fromUsername: Username, toUsername: Username, body: string)
    | MarkReadCall(id: MessageId)

  class Ledger {
    /** What `get` currently returns for each stored id. */
    var snapshots: map<MessageId, MessageDetail>
    /** Every `create` and `markRead` received, oldest first. */
    var calls: seq<Call>
    var nextId: MessageId

    constructor (snapshots: map<MessageId, MessageDetail>, nextId: MessageId)
      ensures this.snapshots == snapshots && calls == [] && this.nextId == nextId
    {
      this.snapshots := snapshots;
      this.calls := [];
      this.nextId := nextId;
    }

    /** get: the stored message with both parties' profiles; NotFound for an unknown id. */
    function Get(id: MessageId): (r: Result<MessageDetail>)
      reads this
      ensures r.Ok? <==> id in snapshots
      ensures r.Ok? ==> r.value == snapshots[id]
      ensures r.Err? ==> r.error == NotFound
    {
      if id in snapshots then Ok(snapshots[id]) else Err(NotFound)
    }

    /** create: records the call and answers with the sender, recipient and body it was given. */
    method Create(fromUsername: Username, toUsername: Username, body: string, now: Timestamp) returns (m: NewMessage)
      modifies this
      ensures calls == old(calls) + [CreateCall(fromUsername, toUsername, body)]
      ensures m.fromUsername == fromUsername && m.toUsername == toUsername && m.body == body
    {
      m := NewMessage(nextId, fromUsername, toUsername, body, now);
      nextId := nextId + 1;
      calls := calls + [CreateCall(fromUsername, toUsername, body)];
    }

    /** markRead: records the call and answers with a receipt for the same id. */
    method MarkRead(id: MessageId, now: Timestamp) returns (receipt: ReadReceipt)
      modifies this
      ensures calls == old(calls) + [MarkReadCall(id)]
      ensures receipt.id == id
    {
      receipt := ReadReceipt(id, now);
      calls := calls + [MarkReadCall(id)];
    }
  }
}
