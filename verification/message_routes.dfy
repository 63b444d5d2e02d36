/** The message routes: who may see a message, who is recorded as its sender, and who may mark
    it read. The caller is the identity the authentication middleware attached to the request,
    None when it attached none. */
module MessageRoutes {
  import opened Common
  import opened MessageModel

  /** The view check: the caller is the message's recipient or its sender. */
  predicate IsParticipant(caller: Username, m: MessageDetail) {
    caller == m.toUser.username || caller == m.fromUser.username
  }

  /** The read check: the caller is the message's recipient. */
  predicate IsRecipient(caller: Username, m: MessageDetail) {
    caller == m.toUser.username
  }

  /** Both parties may view a message, and nobody else may. */
  lemma ParticipantsExactly(m: MessageDetail, caller: Username)
    ensures IsParticipant(m.fromUser.username, m) && IsParticipant(m.toUser.username, m)
    ensures caller != m.fromUser.username && caller != m.toUser.username ==> !IsParticipant(caller, m)
  {
  }

  /** Only the recipient may mark a message read; a sender writing to someone else may not. */
  lemma RecipientOnly(m: MessageDetail, caller: Username)
    ensures IsRecipient(caller, m) <==> caller == m.toUser.username
    ensures m.fromUser.username != m.toUser.username ==> !IsRecipient(m.fromUser.username, m)
    ensures IsRecipient(caller, m) ==> IsParticipant(caller, m)
  {
  }

  /** The body of POST /. A `from_username` the client puts there is carried but never read. */
  datatype PostBody = PostBody(toUsername: Username, body: string, claimedSender: Option<Username>)

  /** GET /:id: look the message up, then show it only to one of its two parties. */
  method ViewMessage(ledger: Ledger, caller: Option<Username>, id: MessageId) returns (r: Result<MessageDetail>)
    ensures ledger.Get(id).Err? ==> r == Err(NotFound)
    ensures ledger.Get(id).Ok? && caller.None? ==> r == Err(NoCaller)
    ensures ledger.Get(id).Ok? && caller.Some? ==>
      r == if IsParticipant(caller.value, ledger.Get(id).value) then ledger.Get(id) else Err(Unauthorized)
    ensures r.Ok? ==> id in ledger.snapshots && r.value == ledger.snapshots[id]
    ensures r.Ok? <==> caller.Some? && id in ledger.snapshots && IsParticipant(caller.value, ledger.snapshots[id])
  {
    var found := ledger.Get(id);
    if found.Err? {
      return Err(found.error);
    }
    var message := found.value;
    if caller.None? {
      return Err(NoCaller);
    }
    if caller.value == message.toUser.username || caller.value == message.fromUser.username {
      return Ok(message);
    }
    return Err(Unauthorized);
  }

  /** POST /: create a message from the caller to the requested recipient. */
  method PostMessage(ledger: Ledger, caller: Option<Username>, request: PostBody, now: Timestamp) returns (r: Result<NewMessage>)
    modifies ledger
    ensures caller.None? ==> r == Err(NoCaller) && unchanged(ledger)
    ensures caller.Some? ==>
      && ledger.calls == old(ledger.calls) + [CreateCall(caller.value, request.toUsername, request.body)]
      && r.Ok? && r.value.fromUsername == caller.value
      && r.value.toUsername == request.toUsername && r.value.body == request.body
  {
    if caller.None? {
      return Err(NoCaller);
    }
    var created := ledger.Create(caller.value, request.toUsername, request.body, now);
    return Ok(created);
  }

  /** POST /:id/read: look the message up, then let only its recipient mark it read. */
  method MarkMessageRead(ledger: Ledger, caller: Option<Username>, id: MessageId, now: Timestamp) returns (r: Result<ReadReceipt>)
    modifies ledger
    ensures old(ledger.Get(id)).Err? ==> r == Err(NotFound) && unchanged(ledger)
    ensures old(ledger.Get(id)).Ok? && caller.None? ==> r == Err(NoCaller) && unchanged(ledger)
    ensures old(ledger.Get(id)).Ok? && caller.Some? && IsRecipient(caller.value, old(ledger.Get(id)).value) ==>
      r.Ok? && r.value.id == id && ledger.calls == old(ledger.calls) + [MarkReadCall(id)]
    ensures old(ledger.Get(id)).Ok? && caller.Some? && !IsRecipient(caller.value, old(ledger.Get(id)).value) ==>
      r == Err(Unauthorized) && unchanged(ledger)
    ensures r.Ok? <==> caller.Some? && old(id in ledger.snapshots) && IsRecipient(caller.value, old(ledger.snapshots[id]))
  {
    var found := ledger.Get(id);
    if found.Err? {
      return Err(found.error);
    }
    var toUsername := found.value.toUser.username;
    if caller.None? {
      return Err(NoCaller);
    }
    if caller.value == toUsername {
      var receipt := ledger.MarkRead(id, now);
      return Ok(receipt);
    }
    return Err(Unauthorized);
  }
}
