/** The realtime relay: the presence map, the authentication gate and the five socket
    handlers, as pure transitions over a server state. Every emitted event, the
    acknowledgement callback and the handshake error are appended to one log. */
module Relay {
  import opened Wrappers
  import opened Accounts
  import opened MessageModel

  /** A socket id; socket ids are never empty, so a present entry is always truthy. */
  type SocketId = s: string | s != "" witness "s"

  type Token = string

  /** What reaches a socket: the `message`, `typing` and `messageSeenUpdate` events, the
      reply to a `sendMessage` acknowledgement callback, and the handshake error. */
  datatype Notice =
    | MessageNotice(msg: Message)
    | TypingNotice(userId: UserId, isTyping: bool)
    | SeenNotice(messageId: MessageId, seen: bool)
    | AckReply(msg: Message)
    | AuthFailure

  datatype Event = Event(to: SocketId, notice: Notice)

  /** The presence map (`connectedUsers`), the message collection and the emitted events. */
  datatype Server = Server(presence: map<UserId, SocketId>, store: Store, log: seq<Event>)

  /** An authenticated connection: its socket and the id of `socket.user`. */
  datatype Conn = Conn(socket: SocketId, user: UserId)

  datatype Handshake = Accepted(server: Server, conn: Conn) | Rejected(server: Server)

  /** `connectedUsers.get(u)`, where `u` may be undefined. */
  function Lookup(presence: map<UserId, SocketId>, u: Option<UserId>): Option<SocketId> {
    if u.Some? && u.value in presence then Some(presence[u.value]) else None
  }

  /** The events a transition from `s` to `r` emitted. */
  ghost predicate Emits(s: Server, r: Server, e: Event) {
    |s.log| <= |r.log| && e in r.log[|s.log|..]
  }

  /** The `io.use` gate: the token must be supplied and verify, and the id it carries must
      belong to an existing user. `verify` stands for the JWT check with the server secret. */
  function Authenticate(verify: Token -> Option<UserId>, users: Users, token: Option<Token>): Option<UserId> {
    if token.None? then None
    else match verify(token.value)
      case None => None
      case Some(id) => if id in users then Some(id) else None
  }

  /** A handshake followed, when admitted, by the `connection` handler registering the
      socket under the user's id (last connection wins). A refused handshake only sends
      the authentication error to that socket. */
  function Connect(s: Server, verify: Token -> Option<UserId>, users: Users,
                   token: Option<Token>, sid: SocketId): (r: Handshake)
    ensures r.Accepted? <==>
      token.Some? && verify(token.value).Some? && verify(token.value).value in users
    ensures r.Accepted? ==>
      && r.conn == Conn(sid, verify(token.value).value)
      && r.server.presence.Keys == s.presence.Keys + {r.conn.user}
      && r.server.presence[r.conn.user] == sid
      && (forall u :: u in s.presence && u != r.conn.user ==> r.server.presence[u] == s.presence[u])
      && r.server.store == s.store && r.server.log == s.log
    ensures r.Rejected? ==>
      && r.server.presence == s.presence && r.server.store == s.store
      && r.server.log == s.log + [Event(sid, AuthFailure)]
  {
    match Authenticate(verify, users, token)
    case Some(id) => Accepted(s.(presence := s.presence[id := sid]), Conn(sid, id))
    case None => Rejected(s.(log := s.log + [Event(sid, AuthFailure)]))
  }

  /** The payload of a `sendMessage` event. The client also sends a `sender`, which the
      server ignores. */
  datatype SendData = SendData(content: Option<string>, receiver: Option<UserId>, sender: Option<UserId>)

  /** When the save in `sendMessage` goes through: content present and non-empty, a
      receiver given, and a generated id that is not already taken. */
  predicate Persists(s: Server, data: SendData, newId: MessageId) {
    data.content.Some? && data.content.value != "" && data.receiver.Some? && newId !in s.store
  }

  /** The events a successful send produces, in order: the echo to the sender's socket,
      the copy to the receiver's socket when the receiver is connected, and the
      acknowledgement when the client passed a callback. */
  function Deliveries(c: Conn, m: Message, forward: Option<SocketId>, hasAck: bool): (out: seq<Event>)
    ensures |out| == 1 + (if forward.Some? then 1 else 0) + (if hasAck then 1 else 0)
    ensures out[0] == Event(c.socket, MessageNotice(m))
    ensures forward.Some? ==> out[1] == Event(forward.value, MessageNotice(m))
    ensures forall e :: e in out ==> e.notice == MessageNotice(m) || e == Event(c.socket, AckReply(m))
    ensures forall sock :: Event(sock, MessageNotice(m)) in out ==> sock == c.socket || forward == Some(sock)
    ensures forward.Some? ==> Event(forward.value, MessageNotice(m)) in out
    ensures hasAck <==> Event(c.socket, AckReply(m)) in out
    ensures hasAck ==> out[|out| - 1] == Event(c.socket, AckReply(m))
  {
    var echo := [Event(c.socket, MessageNotice(m))];
    var copy := match forward
      case Some(sock) => [Event(sock, MessageNotice(m))]
      case None => [];
    var ack := if hasAck then [Event(c.socket, AckReply(m))] else [];
    echo + copy + ack
  }

  /** The `sendMessage` handler. `newId` and `now` are what the id generator and the clock
      produce; `hasAck` says whether the client passed an acknowledgement callback. A failed
      save is caught, so nothing changes; without a callback the call to it throws after
      both emits and is caught, so only the acknowledgement is missing. */
  function SendMessage(s: Server, c: Conn, data: SendData, hasAck: bool,
                       newId: MessageId, now: nat): (r: Server)
    ensures r.presence == s.presence
    ensures s.log <= r.log
    ensures !Persists(s, data, newId) ==> r == s
    ensures Persists(s, data, newId) ==>
      && r.store.Keys == s.store.Keys + {newId}
      && (forall id :: id in s.store ==> r.store[id] == s.store[id])
      && r.store[newId] == Message(newId, data.content.value, Some(c.user), data.receiver, now, false)
    ensures Persists(s, data, newId) ==>
      var m := Message(newId, data.content.value, Some(c.user), data.receiver, now, false);
      var forward := Lookup(s.presence, data.receiver);
      && |r.log| == |s.log| + 1 + (if forward.Some? then 1 else 0) + (if hasAck then 1 else 0)
      && r.log[|s.log|] == Event(c.socket, MessageNotice(m))
      && (forward.Some? ==> r.log[|s.log| + 1] == Event(forward.value, MessageNotice(m)))
      && (forall e :: Emits(s, r, e) ==> e.notice == MessageNotice(m) || e == Event(c.socket, AckReply(m)))
      && (forall sock :: Emits(s, r, Event(sock, MessageNotice(m))) ==>
            sock == c.socket || forward == Some(sock))
      && (forward.Some? ==> Emits(s, r, Event(forward.value, MessageNotice(m))))
      && (hasAck <==> Emits(s, r, Event(c.socket, AckReply(m))))
      && (hasAck ==> r.log[|r.log| - 1] == Event(c.socket, AckReply(m)))
  {
    var m := Create(Draft(data.content, Some(c.user), data.receiver, Some(now), Some(false)), newId, now);
    match Insert(s.store, m)
    case None => s
    case Some(store) =>
      var out := Deliveries(c, m, Lookup(s.presence, data.receiver), hasAck);
      assert (s.log + out)[|s.log|..] == out;
      s.(store := store, log := s.log + out)
  }

  /** The `messageId` field of a `messageSeen` payload: absent, not a string, or a string. */
  datatype SeenArg = Missing | NotText | Text(value: string)

  /** When `messageSeen` marks a message: a non-empty string id naming a stored message that
      has a sender and passes validation again on save. */
  predicate MarksSeen(s: Server, arg: SeenArg) {
    arg.Text? && arg.value != "" && arg.value in s.store && SatisfiesSchema(s.store[arg.value])
  }

  /** The `messageSeen` handler. Every guard that fails, and a save that fails, leaves the
      state as it was; no error reaches the client. On success the original sender, when
      connected, is told. */
  function MessageSeen(s: Server, arg: SeenArg): (r: Server)
    ensures r.presence == s.presence
    ensures !MarksSeen(s, arg) ==> r == s
    ensures MarksSeen(s, arg) ==>
      var id := arg.value;
      && r.store.Keys == s.store.Keys
      && r.store[id] == s.store[id].(seen := true)
      && (forall k :: k in s.store && k != id ==> r.store[k] == s.store[k])
      && r.log == s.log + match Lookup(s.presence, s.store[id].sender)
                          case Some(sock) => [Event(sock, SeenNotice(id, true))]
                          case None => []
  {
    if arg.Missing? || arg.NotText? || arg.value == "" then s
    else if arg.value !in s.store then s
    else
      var m := s.store[arg.value];
      if m.sender.None? then s
      else match Replace(s.store, m.(seen := true))
        case None => s
        case Some(store) =>
          var notify := match Lookup(s.presence, m.sender)
            case Some(sock) => [Event(sock, SeenNotice(arg.value, true))]
            case None => [];
          s.(store := store, log := s.log + notify)
  }

  /** The `typing` handler: a relay to the receiver's socket, tagged with the
      authenticated user's id, and nothing else. */
  function Typing(s: Server, c: Conn, receiverId: Option<UserId>, isTyping: bool): (r: Server)
    ensures r.presence == s.presence && r.store == s.store
    ensures s.log <= r.log && |r.log| <= |s.log| + 1
    ensures |r.log| == |s.log| + 1 <==> receiverId.Some? && receiverId.value in s.presence
    ensures |r.log| == |s.log| + 1 ==>
      r.log[|s.log|] == Event(s.presence[receiverId.value], TypingNotice(c.user, isTyping))
  {
    match Lookup(s.presence, receiverId)
    case Some(sock) => s.(log := s.log + [Event(sock, TypingNotice(c.user, isTyping))])
    case None => s
  }

  /** The `disconnect` handler: drops the user's presence entry, whichever socket it
      names at that point. */
  function Disconnect(s: Server, c: Conn): (r: Server)
    ensures c.user !in r.presence
    ensures r.presence.Keys == s.presence.Keys - {c.user}
    ensures forall u :: u in r.presence ==> r.presence[u] == s.presence[u]
    ensures r.store == s.store && r.log == s.log
  {
    s.(presence := s.presence - {c.user})
  }
}
