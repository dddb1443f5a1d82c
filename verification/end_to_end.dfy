/** Properties that span the relay, the history route and the client. */
module EndToEnd {
  import opened Wrappers
  import opened Accounts
  import opened MessageModel
  import opened Relay
  import opened Routes
  import opened Strings
  import opened ChatClient

  /** A message sent to a receiver who is not connected is still stored, is emitted to
      no socket but the sender's, and is part of the receiver's later history query
      with the sender. */
  lemma OfflineSendReachesHistory(s: Server, c: Conn, data: SendData, hasAck: bool, newId: MessageId, now: nat)
    requires Persists(s, data, newId) && data.receiver.value !in s.presence
    ensures var r := SendMessage(s, c, data, hasAck, newId, now);
      && newId in Conversation(r.store, data.receiver.value, c.user)
      && forall e :: Emits(s, r, e) ==> e.to == c.socket
  {
    var r := SendMessage(s, c, data, hasAck, newId, now);
    assert Between(r.store[newId], data.receiver.value, c.user);
  }

  /** A sends to B; when the message is then marked seen (by B), A, if connected, is the
      one notified, with `seen: true`. */
  lemma SeenReceiptReachesSender(s: Server, a: Conn, data: SendData, hasAck: bool, newId: MessageId, now: nat)
    requires Persists(s, data, newId) && newId != ""
    requires a.user in s.presence
    ensures var s1 := SendMessage(s, a, data, hasAck, newId, now);
            var s2 := MessageSeen(s1, Text(newId));
            && s2.store[newId].seen
            && s2.log == s1.log + [Event(s.presence[a.user], SeenNotice(newId, true))]
  {
    var s1 := SendMessage(s, a, data, hasAck, newId, now);
    assert MarksSeen(s1, Text(newId));
  }

  /** Every message the relay emits after a send names its addressee: the sender's client
      and the receiver's client both accept it, whatever conversation they have open. */
  lemma RelayedMessagesPassClientFilter(s: Server, c: Conn, data: SendData, hasAck: bool,
                                        newId: MessageId, now: nat, sel: Option<Profile>)
    requires Persists(s, data, newId)
    ensures var r := SendMessage(s, c, data, hasAck, newId, now);
      forall e :: Emits(s, r, e) && e.notice.MessageNotice? ==>
        AcceptsMessage(c.user, sel, e.notice.msg) && AcceptsMessage(data.receiver.value, sel, e.notice.msg)
  {
  }

  /** A message from a third party is shown in whatever conversation is open, since it
      names the current user as receiver. */
  lemma ForeignMessageAccepted(me: UserId, partner: Profile, m: Message)
    requires m.receiver == Some(me)
    ensures AcceptsMessage(me, Some(partner), m)
  {
  }

  /** What the client submits is stored as sent, by the authenticated user; the client
      passes no acknowledgement callback, so no reply comes back. */
  lemma ClientSubmitIsStored(v: ChatView, me: UserId, s: Server, sock: SocketId, newId: MessageId, now: nat)
    requires v.selected.Some? && !Blank(v.input) && newId !in s.store
    ensures var sub := SubmitMessage(v, me);
      && sub.out.Some? && sub.out.value.SendOut?
      && var out := sub.out.value;
         var r := SendMessage(s, Conn(sock, me), SendData(Some(out.content), Some(out.receiver), Some(out.sender)), false, newId, now);
         && newId in r.store
         && r.store[newId].content == v.input
         && r.store[newId].sender == Some(me)
         && r.store[newId].receiver == Some(v.selected.value.id)
         && !Emits(s, r, Event(sock, AckReply(r.store[newId])))
  {
    assert v.input != "";
  }

  /** A keystroke in a conversation with B reaches B, if connected, and turns on B's
      typing indicator when B has this user's conversation open. */
  lemma TypingRoundTrip(v: ChatView, s: Server, c: Conn, value: string, bView: ChatView)
    requires v.selected.Some? && v.selected.value.id in s.presence
    requires bView.selected.Some? && bView.selected.value.id == c.user
    ensures var sub := InputChange(v, c.user, value);
      var out := sub.out.value;
      var r := Typing(s, c, Some(out.receiverId), out.isTyping);
      && |r.log| == |s.log| + 1
      && r.log[|s.log|] == Event(s.presence[v.selected.value.id], TypingNotice(c.user, true))
      && OnTyping(bView, r.log[|s.log|].notice.userId, r.log[|s.log|].notice.isTyping).isTyping
  {
  }
}
