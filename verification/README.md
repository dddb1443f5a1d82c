# Chat relay model

A Dafny model of the core of a two-party web chat: the Socket.IO relay in
`server/index.js` (authentication gate, presence map `connectedUsers`, and the
`sendMessage`, `messageSeen`, `typing` and `disconnect` handlers), the two HTTP routes
with logic of their own (`PUT /users/:id` and `GET /messages/:userId`), the Message
schema in `server/models/Message.js`, and the list and string handling of the chat
component `client/src/components/Chat.js`.

The server is a functional state machine. The state `Relay.Server` holds the presence
map (user id to socket id), the message collection (a map keyed by `_id`), and an
append-only log. The log records every event emitted to a socket, every
acknowledgement-callback reply and every handshake error. Each handler is a pure
function from state to state. `RelayRuns` folds handlers over input sequences and
proves invariants of whole runs. The client is a second state machine
(`ChatClient.ChatView`), and `EndToEnd` connects the two.

Abstractions:
- JWT verification is a function parameter `verify: Token -> Option<UserId>`. The user
  collection is a finite map `Users`.
- The ObjectId generator and the clock are parameters of `SendMessage`: `newId` and
  `now`. If the generated id is already taken, the insert fails as a duplicate key
  would, and the handler's catch leaves the state unchanged.
- A Mongoose save is `MessageModel.Insert` (a new document) or `MessageModel.Replace`
  (a document that was read back). Both run the schema's required checks.
- A missing `content` is represented as the empty string. Mongoose's required check on a
  String rejects `undefined` and `""` alike.
- Socket ids are non-empty strings. So `if (receiverSocketId)` is the same as map
  membership.
- `toLowerCase` is modelled for ASCII letters only.

Behaviours of the code that the model keeps as written:
- The client's inbound `message` filter (Chat.js:44-51) also accepts any message that
  names the current user. Every message the relay routes to a client names that client's
  user, so every relayed message is accepted, whatever conversation is open
  (`EndToEnd.RelayedMessagesPassClientFilter`, `EndToEnd.ForeignMessageAccepted`).
- The current user is removed from the fetched user list on the client (Chat.js:76,
  `ChatClient.ReceiveUsers`).
- `disconnect` deletes the user's presence entry even when it now names a newer socket
  of the same user. After two connections, closing the older one unregisters the user
  although the newer one is open (`RelayRuns.OlderDisconnectDropsNewerSocket`).
- The chat client neither emits `messageSeen` nor listens for `messageSeenUpdate`
  (Chat.js:43-59, 113-133). Read receipts therefore travel only between the relay and
  some other client, and `EndToEnd.SeenReceiptReachesSender` describes a path the shipped
  client never takes.
- `messageSeen` does not check that the caller is the message's receiver, and
  `PUT /users/:id` does not check that the caller owns the profile.

## Model

| member | source | states |
|---|---|---|
| MessageModel.Create | server/models/Message.js:3-10 | A new document gets the generated `_id`. `seen` defaults to false and `timestamp` to the current time. Given fields are kept. The document passes the schema exactly when content is present and non-empty and sender and receiver are present. |
| MessageModel.Insert | server/models/Message.js:4-7 | Saving a new document succeeds exactly when it passes the required checks and its `_id` is not yet taken. On success exactly that one document is added and every other is unchanged. |
| MessageModel.Replace | server/index.js:191-192 | Saving a document that was read back re-validates it. On success only that document changes. |
| Relay.Connect | server/index.js:122-141 | A connection is admitted exactly when a token is supplied, it verifies, and its id names an existing user. Then presence maps that user to the new socket, overwriting any earlier entry, and all other entries, the store and the log are unchanged. Otherwise presence and store are unchanged and only the authentication error is sent to that socket. |
| Relay.Deliveries | server/index.js:157-165 | A successful send emits exactly one echo to the sender's socket, first. When the receiver is connected, the second event is the copy to the receiver's socket, even when that socket is the sender's own. When the receiver is not connected, there is no copy. It sends exactly one acknowledgement, carrying the same message and coming last, when a callback was passed, and none otherwise. Nothing else is emitted. |
| Relay.SendMessage | server/index.js:143-169 | When content is non-empty, a receiver is given and the id is fresh, exactly one message is added. Its sender is the authenticated user, never the client's `sender`, and `seen` is false. The log grows by exactly one echo to the sender's socket (first), then, when the receiver is present, the copy to the receiver's socket (even when that socket is the sender's own), and nothing to any other socket. It also gets exactly one acknowledgement carrying the same message, last, when a callback was passed. Otherwise nothing changes. Presence never changes. |
| Relay.MessageSeen | server/index.js:171-205 | A missing, non-string or empty id, an unknown id, a message without a sender, or a failed save changes nothing and emits nothing. Otherwise only that message's `seen` becomes true, and `messageSeenUpdate{id, seen: true}` goes to the sender's socket exactly when the sender is present. |
| Relay.Typing | server/index.js:207-212 | Store and presence never change. Exactly one `typing{userId: authenticated id, isTyping}` event is emitted, to the receiver's socket, exactly when the receiver is present. |
| Relay.Disconnect | server/index.js:214-217 | The user is absent from presence afterwards. Every other entry, the store and the log are unchanged. |
| RelayRuns.StepInvariants | server/index.js:139-218 | Any single handler keeps stored messages schema-valid. It only evolves the store: nothing is removed, only `seen` changes, and `seen` never goes back to false. It only appends to the log. |
| RelayRuns.RunKeepsWellFormed | server/index.js:139-218 | Over any sequence of handshakes and handler calls, stored messages stay schema-valid. |
| RelayRuns.RunEvolvesStore | server/index.js:139-218 | Over any sequence of handshakes and handler calls, no stored message is lost or edited apart from `seen`, and `seen` never reverts to false. |
| RelayRuns.RunLogAppendOnly | server/index.js:139-218 | Over any sequence of handshakes and handler calls, the log only grows at its end. |
| RelayRuns.TransientRunKeepsStore | server/index.js:207-217 | Any sequence of handshakes, typing signals and disconnects leaves the message store exactly as it was. |
| RelayRuns.DisconnectIdempotent | server/index.js:216 | A second disconnect of the same user changes nothing. |
| RelayRuns.MessageSeenIdempotent | server/index.js:191-201 | Marking a message seen twice gives the same store as marking it once. The second call appends exactly the notification the first appended: the same `messageSeenUpdate` when the sender is present, nothing otherwise. |
| RelayRuns.MarksSeenOnWellFormed | server/index.js:175-192 | On a store of schema-valid messages, `messageSeen` takes effect exactly when the id is a non-empty string that names a stored message. |
| RelayRuns.OlderDisconnectDropsNewerSocket | server/index.js:139-217 | When the same user connects twice, the second socket wins the presence entry. Disconnecting the first socket then removes the user from presence. |
| Routes.SetField | server/index.js:110 | Assigning a whitelisted field sets that field only, to a string or, for `null`, to nothing. Id, password and the other whitelisted fields are unchanged. |
| Routes.ApplyUpdatesSnoc | server/index.js:108-112 | Running the update loop over a body with one more key is running it over the body and then applying that key. |
| Routes.ApplyUpdatesMeetsSpec | server/index.js:108-112 | The update loop sets each whitelisted field to what the last defined value the body gives for it assigns; a `null` clears the field. Undefined values are skipped. Id and password are unchanged. |
| Routes.UpdateUser | server/index.js:92-121 | A body with any key outside {username, email, bio, avatar, theme} is rejected with "Invalid updates!" before the lookup, and the users are unchanged. An unknown id gives "User not found" with users unchanged. A failed save is answered 400 with its error message, and users are unchanged. Otherwise only that user changes, only in the supplied, defined whitelisted fields (`null` included), and the response is the updated user. |
| Routes.InsertByTime | server/index.js:75 | Inserting into a timestamp-sorted list keeps it sorted. The result is the input plus exactly one copy of the new element, as a multiset. Ids stay distinct when the new id is new. |
| Routes.History | server/index.js:68-80 | The result contains exactly the stored messages between the caller and the other user, in either direction. Each appears once, as stored, and the list is sorted by timestamp. |
| Strings.TrimStart | client/src/components/Chat.js:115 | The result is a suffix of the input that does not start with JavaScript whitespace, and every dropped character was whitespace. |
| Strings.TrimEnd | client/src/components/Chat.js:115 | The result is a prefix of the input that does not end with JavaScript whitespace, and every dropped character was whitespace. |
| Strings.TrimEmptyIffBlank | client/src/components/Chat.js:115 | `trim()` gives the empty string exactly when every character is JavaScript whitespace. |
| Strings.Lower | client/src/components/Chat.js:141-143 | Lowercasing keeps the length and maps each ASCII capital to its lowercase letter. Every other character is kept. |
| Strings.LowerIdempotent | client/src/components/Chat.js:141-143 | Lowercasing twice equals lowercasing once. |
| Strings.IncludesIff | client/src/components/Chat.js:143 | `s.includes(t)` holds exactly when `t` occurs at some position of `s`. |
| Strings.IncludesEmpty | client/src/components/Chat.js:143 | Every string includes the empty string. |
| Lists.Filter | client/src/components/Chat.js:140-145 | The result is an order-preserving subsequence of the input. Every element satisfying the predicate keeps all its occurrences, and every other element has none. |
| Lists.FilterAll | client/src/components/Chat.js:140-145 | A predicate that every element satisfies removes nothing. |
| ChatClient.HasIdIff | client/src/components/Chat.js:24 | `some(m => m._id === id)` holds exactly when some position holds a message with that id. |
| ChatClient.AddMessage | client/src/components/Chat.js:22-29 | The list is unchanged exactly when a message with the same `_id` is present. Otherwise the message is appended after the unchanged prefix. Afterwards the id is always present. |
| ChatClient.AddMessageKeepsDistinct | client/src/components/Chat.js:22-29 | If the list's ids are distinct, they stay distinct after adding. |
| ChatClient.AddMessageIdempotent | client/src/components/Chat.js:22-29 | Adding the same message twice equals adding it once. |
| ChatClient.OnMessage | client/src/components/Chat.js:43-52 | An inbound message goes through `addMessage` exactly when its sender or receiver equals the selected user or the current user. Otherwise the view is unchanged. Nothing but the message list changes. |
| ChatClient.OnTyping | client/src/components/Chat.js:55-59 | The typing indicator takes the signalled value exactly when the signal comes from the selected user. Nothing else changes. |
| ChatClient.SelectUser | client/src/components/Chat.js:108-111 | Selecting a user opens that conversation and resets the typing indicator to false. Nothing else changes. |
| ChatClient.SelectThenTyping | client/src/components/Chat.js:55-59 | After a user is selected, a typing signal from anyone else leaves the indicator off. One from the selected user sets it to the signalled value. |
| ChatClient.SubmitMessage | client/src/components/Chat.js:113-124 | A send is emitted exactly when the input is not blank and a user is selected. It carries the untrimmed input, the current user and the selected user, and the input is cleared. Otherwise the view is unchanged and nothing is emitted. |
| ChatClient.InputChange | client/src/components/Chat.js:126-128 | Each keystroke stores the input and emits `isTyping: true` to the selected user. |
| ChatClient.SearchUsers | client/src/components/Chat.js:140-145 | The search term is stored lowercased. The shown list is the order-preserving subsequence of users whose lowercased username contains the lowercased term, and each matching user keeps all its occurrences. |
| ChatClient.SearchEmptyTermKeepsAll | client/src/components/Chat.js:140-145 | An empty term lists every user. |
| ChatClient.SearchIgnoresCase | client/src/components/Chat.js:140-145 | Searching for a term and for its lowercased form gives the same list. |
| ChatClient.ReceiveUsers | client/src/components/Chat.js:71-78 | The fetched list, in order, minus exactly the entries with the current user's id, becomes both the user list and the shown list. Every other entry keeps all its occurrences. |
| EndToEnd.OfflineSendReachesHistory | server/index.js:155-162 | A message sent while the receiver is absent is stored and emitted to no socket but the sender's. It belongs to the receiver's history with the sender. |
| EndToEnd.SeenReceiptReachesSender | server/index.js:191-201 | After A's message is stored, marking it seen sets `seen` and sends A's socket, if A is connected, exactly one `messageSeenUpdate` with `seen: true`. |
| EndToEnd.RelayedMessagesPassClientFilter | client/src/components/Chat.js:44-51 | Every message event that a send emits passes the inbound filter of both the sender's and the receiver's client, whatever conversation is open. |
| EndToEnd.ForeignMessageAccepted | client/src/components/Chat.js:44-51 | A message addressed to the current user is accepted even when another conversation is open. |
| EndToEnd.ClientSubmitIsStored | client/src/components/Chat.js:115-122 | A non-blank submission with a selected user is stored with the typed content, the authenticated user as sender and the selected user as receiver. No acknowledgement comes back, since the client passes no callback. |
| EndToEnd.TypingRoundTrip | server/index.js:207-212 | A keystroke reaches the connected partner as `typing{userId, isTyping: true}`. It sets the partner's indicator when the partner has this conversation open. |

## Left out

- Express routing, the HTTP status codes other than the two error bodies, CORS, Socket.IO transport and rooms, and `server.listen`: these are I/O plumbing. Emits are appends to the log.
- The MongoDB connection (`server/config/connectdb.js` and `mongoose.connect`): no logic of its own. The store is a map.
- `/signup`, `/login`, `GET /users` and `GET /users/:id`: password hashing, token signing and plain lookups.
- JWT signing and verification: opaque cryptography, modelled as the `verify` parameter.
- Type casts Mongoose applies: an ObjectId cast failure on `receiver` or on a route parameter, and a non-string `content` that is cast to a string. Ids and content are strings throughout.
- A `sendMessage` or `typing` payload that is itself missing: destructuring it throws before any state is touched.
- Interleaving of events from different connections and the `await` suspension points: handlers run one at a time. Connections are values handed to the handlers, so a connection is not prevented from sending after its `disconnect`. Socket.IO stops delivering those events.
- React rendering, `useEffect` wiring, scroll-into-view, `date-fns` formatting and the axios calls: UI and network. The history fetch on selection (Chat.js:86-102) is not modelled as a client transition.
- The 2-second `setTimeout` that emits `isTyping: false` (Chat.js:129-132): timer-based. Only the `isTyping: true` signal on each keystroke is modelled.
- `client/src/components/UserProfile.js` and `client/src/App.js`: form state and routing only.
- Routes.UpdateUser: the outcome of saving the user is a parameter, because `server/models/user.js` (its validators and the username uniqueness index) is not part of this model. Only the five whitelisted fields are modelled, and a body value is `undefined`, `null` or a string. Other JSON values (numbers, objects) are not modelled.
- Strings.Lower: handles ASCII letters only, not the full Unicode case mapping of `toLowerCase`.
- Routes.History: states the result is sorted by timestamp but fixes no order among equal timestamps, because the database does not promise one.
