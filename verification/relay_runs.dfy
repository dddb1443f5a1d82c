/** Sequences of relay events, one handler at a time, and the invariants the handlers
    keep over any such sequence. */
module RelayRuns {
  import opened Wrappers
  import opened Accounts
  import opened MessageModel
  import opened Relay

  /** One inbound step: a handshake, or an event on an authenticated connection. */
  datatype Input =
    | Open(token: Option<Token>, sid: SocketId)
    | Send(c: Conn, data: SendData, hasAck: bool, newId: MessageId, now: nat)
    | MarkSeen(arg: SeenArg)
    | SignalTyping(c: Conn, receiverId: Option<UserId>, isTyping: bool)
    | Close(c: Conn)

  function Step(s: Server, verify: Token -> Option<UserId>, users: Users, i: Input): Server {
    match i
    case Open(token, sid) => Connect(s, verify, users, token, sid).server
    case Send(c, data, hasAck, newId, now) => SendMessage(s, c, data, hasAck, newId, now)
    case MarkSeen(arg) => MessageSeen(s, arg)
    case SignalTyping(c, receiverId, isTyping) => Typing(s, c, receiverId, isTyping)
    case Close(c) => Disconnect(s, c)
  }

  function Run(s: Server, verify: Token -> Option<UserId>, users: Users, ins: seq<Input>): Server
    decreases |ins|
  {
    if |ins| == 0 then s else Run(Step(s, verify, users, ins[0]), verify, users, ins[1..])
  }

  /** Every stored message carries its required fields. */
  ghost predicate WellFormed(st: Store) {
    forall id :: id in st ==> SatisfiesSchema(st[id])
  }

  /** `b` is a later version of `a`: no message disappears, only `seen` may change, and it
      never goes back from true to false. */
  ghost predicate Evolves(a: Store, b: Store) {
    forall id :: id in a ==>
      id in b && b[id] == a[id].(seen := b[id].seen) && (a[id].seen ==> b[id].seen)
  }

  lemma EvolvesTransitive(a: Store, b: Store, c: Store)
    requires Evolves(a, b) && Evolves(b, c)
    ensures Evolves(a, c)
  {
  }

  /** One step keeps the store well formed, only evolves it, and only appends to the log. */
  lemma StepInvariants(s: Server, verify: Token -> Option<UserId>, users: Users, i: Input)
    ensures WellFormed(s.store) ==> WellFormed(Step(s, verify, users, i).store)
    ensures Evolves(s.store, Step(s, verify, users, i).store)
    ensures s.log <= Step(s, verify, users, i).log
  {
  }

  /** Over any run, stored messages keep their required fields. */
  lemma {:induction false} RunKeepsWellFormed(s: Server, verify: Token -> Option<UserId>, users: Users, ins: seq<Input>)
    requires WellFormed(s.store)
    ensures WellFormed(Run(s, verify, users, ins).store)
    decreases |ins|
  {
    if |ins| > 0 {
      StepInvariants(s, verify, users, ins[0]);
      RunKeepsWellFormed(Step(s, verify, users, ins[0]), verify, users, ins[1..]);
    }
  }

  /** Over any run, no message is lost or edited except for its seen flag, and seen never
      reverts to false. */
  lemma {:induction false} RunEvolvesStore(s: Server, verify: Token -> Option<UserId>, users: Users, ins: seq<Input>)
    ensures Evolves(s.store, Run(s, verify, users, ins).store)
    decreases |ins|
  {
    if |ins| > 0 {
      var s1 := Step(s, verify, users, ins[0]);
      StepInvariants(s, verify, users, ins[0]);
      RunEvolvesStore(s1, verify, users, ins[1..]);
      EvolvesTransitive(s.store, s1.store, Run(s1, verify, users, ins[1..]).store);
    }
  }

  /** Over any run, the log only grows at its end. */
  lemma {:induction false} RunLogAppendOnly(s: Server, verify: Token -> Option<UserId>, users: Users, ins: seq<Input>)
    ensures s.log <= Run(s, verify, users, ins).log
    decreases |ins|
  {
    if |ins| > 0 {
      StepInvariants(s, verify, users, ins[0]);
      RunLogAppendOnly(Step(s, verify, users, ins[0]), verify, users, ins[1..]);
    }
  }

  /** Handshakes, typing signals and disconnects never touch the message store. */
  predicate Transient(i: Input) {
    i.Open? || i.SignalTyping? || i.Close?
  }

  lemma {:induction false} TransientRunKeepsStore(s: Server, verify: Token -> Option<UserId>, users: Users, ins: seq<Input>)
    requires forall k :: 0 <= k < |ins| ==> Transient(ins[k])
    ensures Run(s, verify, users, ins).store == s.store
    decreases |ins|
  {
    if |ins| > 0 {
      TransientRunKeepsStore(Step(s, verify, users, ins[0]), verify, users, ins[1..]);
    }
  }

  /** A second disconnect of the same user changes nothing. */
  lemma DisconnectIdempotent(s: Server, c: Conn)
    ensures Disconnect(Disconnect(s, c), c) == Disconnect(s, c)
  {
  }

  /** Marking the same message seen twice leaves the store as marking it once, and the
      second call re-sends exactly the notification the first one sent (none when the
      sender is absent or the first call had no effect). */
  lemma MessageSeenIdempotent(s: Server, arg: SeenArg)
    ensures MessageSeen(MessageSeen(s, arg), arg).store == MessageSeen(s, arg).store
    ensures var s1 := MessageSeen(s, arg);
      && s.log <= s1.log
      && MessageSeen(s1, arg).log == s1.log + s1.log[|s.log|..]
  {
    var s1 := MessageSeen(s, arg);
    if MarksSeen(s, arg) {
      assert s1.store[arg.value] == s.store[arg.value].(seen := true);
      assert MarksSeen(s1, arg);
      assert s1.store[arg.value := s1.store[arg.value].(seen := true)] == s1.store;
    }
  }

  /** On a well-formed store the lenient guards of `messageSeen` reduce to one question:
      is the id a non-empty string naming a stored message? */
  lemma MarksSeenOnWellFormed(s: Server, arg: SeenArg)
    requires WellFormed(s.store)
    ensures MarksSeen(s, arg) <==> arg.Text? && arg.value != "" && arg.value in s.store
  {
  }

  /** Last connection wins, and the older connection's disconnect then unregisters the
      user although the newer connection is still open. */
  lemma OlderDisconnectDropsNewerSocket(s: Server, verify: Token -> Option<UserId>, users: Users,
                                        token: Token, sid1: SocketId, sid2: SocketId)
    requires verify(token).Some? && verify(token).value in users
    ensures var h1 := Connect(s, verify, users, Some(token), sid1);
            var h2 := Connect(h1.server, verify, users, Some(token), sid2);
            && h2.server.presence[h2.conn.user] == sid2
            && h2.conn.user !in Disconnect(h2.server, h1.conn).presence
  {
  }
}
