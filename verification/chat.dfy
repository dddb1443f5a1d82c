/** The chat client's state and its event handlers: duplicate-free message list, the
    inbound `message` and `typing` filters, user selection, the send guard, the typing
    signal, the username search and the user-list fetch. */
module ChatClient {
  import opened Wrappers
  import opened Accounts
  import opened MessageModel
  import opened Strings
  import opened Lists

  /** A user as listed by `GET /users`. */
  datatype Profile = Profile(id: UserId, username: string)

  /** The component's state: all users, the users shown after search, the open
      conversation partner, its messages, the composing buffer, the typing indicator and
      the search term. */
  datatype ChatView = ChatView(
    users: seq<Profile>,
    filtered: seq<Profile>,
    selected: Option<Profile>,
    messages: seq<Message>,
    input: string,
    isTyping: bool,
    searchTerm: string)

  /** What the client emits on its socket. */
  datatype Outgoing =
    | SendOut(content: string, sender: UserId, receiver: UserId)
    | TypingOut(userId: UserId, receiverId: UserId, isTyping: bool)

  datatype Submission = Submission(view: ChatView, out: Option<Outgoing>)

  /** `selectedUser?._id`: undefined when nobody is selected. */
  function SelectedId(sel: Option<Profile>): Option<UserId> {
    if sel.Some? then Some(sel.value.id) else None
  }

  /** `messages.some(m => m._id === id)`. */
  function HasId(ms: seq<Message>, id: MessageId): bool
    decreases |ms|
  {
    |ms| > 0 && (ms[0].id == id || HasId(ms[1..], id))
  }

  /** `HasId` agrees with the positional reading. */
  lemma {:induction false} HasIdIff(ms: seq<Message>, id: MessageId)
    ensures HasId(ms, id) <==> exists i :: 0 <= i < |ms| && ms[i].id == id
    decreases |ms|
  {
    if |ms| > 0 {
      HasIdIff(ms[1..], id);
      if HasId(ms[1..], id) {
        var i :| 0 <= i < |ms[1..]| && ms[1..][i].id == id;
        assert ms[i + 1].id == id;
      }
      forall i | 0 < i < |ms| && ms[i].id == id ensures HasId(ms[1..], id) {
        assert ms[1..][i - 1].id == id;
      }
    }
  }

  /** `addMessage`: appends `m` unless a message with its id is already listed. */
  function AddMessage(ms: seq<Message>, m: Message): (r: seq<Message>)
    ensures ms <= r && |r| <= |ms| + 1
    ensures HasId(r, m.id)
    ensures r == ms <==> HasId(ms, m.id)
    ensures !HasId(ms, m.id) ==> r[|ms|] == m
  {
    if HasId(ms, m.id) then ms
    else
      HasIdIff(ms + [m], m.id);
      assert (ms + [m])[|ms|].id == m.id;
      ms + [m]
  }

  /** Adding keeps the ids of the list distinct. */
  lemma AddMessageKeepsDistinct(ms: seq<Message>, m: Message)
    requires DistinctIds(ms)
    ensures DistinctIds(AddMessage(ms, m))
  {
    if !HasId(ms, m.id) {
      HasIdIff(ms, m.id);
      var r := AddMessage(ms, m);
      assert r == ms + [m];
    }
  }

  /** Adding the same message twice is adding it once. */
  lemma AddMessageIdempotent(ms: seq<Message>, m: Message)
    ensures AddMessage(AddMessage(ms, m), m) == AddMessage(ms, m)
  {
  }

  /** The inbound `message` filter: the message names the selected user or the current
      user as sender or receiver (an undefined field matches an empty selection). */
  predicate AcceptsMessage(me: UserId, sel: Option<Profile>, m: Message) {
    m.sender == SelectedId(sel) || m.receiver == SelectedId(sel) ||
    m.sender == Some(me) || m.receiver == Some(me)
  }

  /** The `message` listener. */
  function OnMessage(v: ChatView, me: UserId, m: Message): (r: ChatView)
    ensures r == v.(messages := r.messages)
    ensures !AcceptsMessage(me, v.selected, m) ==> r == v
    ensures AcceptsMessage(me, v.selected, m) ==> r.messages == AddMessage(v.messages, m)
  {
    if AcceptsMessage(me, v.selected, m) then v.(messages := AddMessage(v.messages, m)) else v
  }

  /** The `typing` listener: only a signal from the selected user moves the indicator. */
  function OnTyping(v: ChatView, userId: UserId, isTyping: bool): (r: ChatView)
    ensures r == v.(isTyping := r.isTyping)
    ensures v.selected.Some? && v.selected.value.id == userId ==> r.isTyping == isTyping
    ensures !(v.selected.Some? && v.selected.value.id == userId) ==> r == v
  {
    if Some(userId) == SelectedId(v.selected) then v.(isTyping := isTyping) else v
  }

  /** `handleUserSelect`: opens the conversation and clears the typing indicator. */
  function SelectUser(v: ChatView, u: Profile): (r: ChatView)
    ensures r.selected == Some(u) && !r.isTyping
    ensures r == v.(selected := r.selected, isTyping := r.isTyping)
  {
    v.(selected := Some(u), isTyping := false)
  }

  /** After selecting a user, the indicator stays off until that user signals typing: a
      signal from anyone else is ignored, and one from the selected user sets it. */
  lemma SelectThenTyping(v: ChatView, u: Profile, from: UserId, isTyping: bool)
    ensures from != u.id ==> !OnTyping(SelectUser(v, u), from, isTyping).isTyping
    ensures from == u.id ==> OnTyping(SelectUser(v, u), from, isTyping).isTyping == isTyping
  {
  }

  /** `handleSendMessage`: emits the untrimmed input to the selected user when the input
      is not blank and someone is selected, then clears the input; otherwise nothing. */
  function SubmitMessage(v: ChatView, me: UserId): (r: Submission)
    ensures r.out.Some? <==> !Blank(v.input) && v.selected.Some?
    ensures r.out.Some? ==>
      r.out.value == SendOut(v.input, me, v.selected.value.id) && r.view == v.(input := "")
    ensures r.out.None? ==> r.view == v
  {
    TrimEmptyIffBlank(v.input);
    if Trim(v.input) != "" && v.selected.Some? then
      Submission(v.(input := ""), Some(SendOut(v.input, me, v.selected.value.id)))
    else
      Submission(v, None)
  }

  /** `handleInputChange`: stores the input and signals `isTyping: true` to the selected
      user on every keystroke (the input is only shown while someone is selected). */
  function InputChange(v: ChatView, me: UserId, value: string): (r: Submission)
    requires v.selected.Some?
    ensures r.view == v.(input := value)
    ensures r.out == Some(TypingOut(me, v.selected.value.id, true))
  {
    Submission(v.(input := value), Some(TypingOut(me, v.selected.value.id, true)))
  }

  /** The search predicate: the lowered username contains the lowered term. */
  predicate MatchesSearch(p: Profile, term: string) {
    Includes(Lower(p.username), Lower(term))
  }

  /** `handleSearch`: keeps, in order, the users whose username contains the term,
      ignoring ASCII case. */
  function SearchUsers(v: ChatView, input: string): (r: ChatView)
    ensures r.searchTerm == Lower(input)
    ensures forall i :: 0 <= i < |r.filtered| ==> r.filtered[i] in v.users && MatchesSearch(r.filtered[i], input)
    ensures forall i :: 0 <= i < |v.users| && MatchesSearch(v.users[i], input) ==> v.users[i] in r.filtered
    ensures IsSubsequence(r.filtered, v.users)
    ensures forall x | x in multiset(v.users) ::
      multiset(r.filtered)[x] == if MatchesSearch(x, input) then multiset(v.users)[x] else 0
    ensures r == v.(searchTerm := r.searchTerm, filtered := r.filtered)
  {
    var term := Lower(input);
    v.(searchTerm := term, filtered := Filter(v.users, (p: Profile) => Includes(Lower(p.username), term)))
  }

  /** An empty search term lists every user. */
  lemma SearchEmptyTermKeepsAll(v: ChatView)
    ensures SearchUsers(v, "").filtered == v.users
  {
    forall i | 0 <= i < |v.users| ensures Includes(Lower(v.users[i].username), Lower("")) {
      IncludesEmpty(Lower(v.users[i].username));
    }
    FilterAll(v.users, (p: Profile) => Includes(Lower(p.username), Lower("")));
  }

  /** Searching for a term and for its lowered form give the same list. */
  lemma SearchIgnoresCase(v: ChatView, input: string)
    ensures SearchUsers(v, input).filtered == SearchUsers(v, Lower(input)).filtered
  {
    LowerIdempotent(input);
  }

  /** `fetchUsers`: the fetched list without the current user, shown unfiltered. */
  function ReceiveUsers(v: ChatView, me: UserId, fetched: seq<Profile>): (r: ChatView)
    ensures forall i :: 0 <= i < |r.users| ==> r.users[i].id != me && r.users[i] in fetched
    ensures forall i :: 0 <= i < |fetched| && fetched[i].id != me ==> fetched[i] in r.users
    ensures IsSubsequence(r.users, fetched)
    ensures forall x | x in multiset(fetched) ::
      multiset(r.users)[x] == if x.id != me then multiset(fetched)[x] else 0
    ensures r.filtered == r.users
    ensures r == v.(users := r.users, filtered := r.filtered)
  {
    var others := Filter(fetched, (p: Profile) => p.id != me);
    v.(users := others, filtered := others)
  }
}
