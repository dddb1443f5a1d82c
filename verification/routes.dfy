/** The two HTTP routes with logic of their own: the whitelisted profile update and the
    conversation history between the caller and another user. */
module Routes {
  import opened Wrappers
  import opened Accounts
  import opened MessageModel

  /** The profile fields a client may change. */
  const AllowedUpdates: seq<string> := ["username", "email", "bio", "avatar", "theme"]

  /** A value in a JSON request body; `Undefined` is a key whose value is `undefined`. */
  datatype JsonValue = Undefined | Null | Str(text: string)

  /** A request body as its keys in order with their values. */
  type Body = seq<(string, JsonValue)>

  /** Every key of the body is whitelisted. */
  predicate IsValidOperation(body: Body) {
    forall i :: 0 <= i < |body| ==> body[i].0 in AllowedUpdates
  }

  /** What a field holds after `user[key] = v` for a defined `v`: `null` clears it. */
  function Assigned(v: JsonValue): Option<string>
    requires !v.Undefined?
  {
    if v.Null? then None else Some(v.text)
  }

  /** The value of a whitelisted field. */
  function Field(u: User, key: string): Option<string>
    requires key in AllowedUpdates
  {
    if key == "username" then u.username
    else if key == "email" then u.email
    else if key == "bio" then u.bio
    else if key == "avatar" then u.avatar
    else u.theme
  }

  /** `user[key] = v` for a whitelisted key. */
  function SetField(u: User, key: string, v: Option<string>): (r: User)
    requires key in AllowedUpdates
    ensures Field(r, key) == v
    ensures forall k :: k in AllowedUpdates && k != key ==> Field(r, k) == Field(u, k)
    ensures r.id == u.id && r.password == u.password
  {
    if key == "username" then u.(username := v)
    else if key == "email" then u.(email := v)
    else if key == "bio" then u.(bio := v)
    else if key == "avatar" then u.(avatar := v)
    else u.(theme := v)
  }

  /** One iteration of the update loop: an `undefined` value is skipped, anything else,
      `null` included, is assigned. */
  function ApplyOne(u: User, entry: (string, JsonValue)): User
    requires entry.0 in AllowedUpdates
  {
    if entry.1.Undefined? then u else SetField(u, entry.0, Assigned(entry.1))
  }

  /** The update loop over the body's keys, in order. */
  function ApplyUpdates(u: User, body: Body): User
    requires IsValidOperation(body)
    decreases |body|
  {
    if |body| == 0 then u else ApplyUpdates(ApplyOne(u, body[0]), body[1..])
  }

  /** What the last defined value the body gives for `key` assigns, if there is one. */
  function LastDefined(body: Body, key: string): Option<Option<string>>
    decreases |body|
  {
    if |body| == 0 then None
    else if body[|body| - 1].0 == key && !body[|body| - 1].1.Undefined? then Some(Assigned(body[|body| - 1].1))
    else LastDefined(body[..|body| - 1], key)
  }

  lemma {:induction false} ApplyUpdatesSnoc(u: User, body: Body, e: (string, JsonValue))
    requires IsValidOperation(body) && e.0 in AllowedUpdates
    ensures IsValidOperation(body + [e])
    ensures ApplyUpdates(u, body + [e]) == ApplyOne(ApplyUpdates(u, body), e)
    decreases |body|
  {
    if |body| > 0 {
      assert (body + [e])[1..] == body[1..] + [e];
      ApplyUpdatesSnoc(ApplyOne(u, body[0]), body[1..], e);
    }
  }

  /** The update loop sets each whitelisted field to what the last defined value supplied
      for it assigns (a string, or nothing for `null`) and leaves every other field, the
      id and the password included, as it was. */
  lemma {:induction false} ApplyUpdatesMeetsSpec(u: User, body: Body)
    requires IsValidOperation(body)
    ensures var r := ApplyUpdates(u, body);
      && r.id == u.id && r.password == u.password
      && forall k :: k in AllowedUpdates ==> Field(r, k) == LastDefined(body, k).GetOr(Field(u, k))
    decreases |body|
  {
    if |body| > 0 {
      var init := body[..|body| - 1];
      var e := body[|body| - 1];
      assert body == init + [e];
      ApplyUpdatesMeetsSpec(u, init);
      ApplyUpdatesSnoc(u, init, e);
    }
  }

  /** The HTTP answer of `PUT /users/:id`. */
  datatype Response = Ok(user: User) | BadRequest(error: string) | NotFound(error: string)

  datatype Updated = Updated(users: Users, response: Response)

  /** `PUT /users/:id`: the whitelist is checked before the lookup; on success only the
      supplied, defined whitelisted fields of that user change. `saveError` is the outcome
      of saving the updated user (its schema is not part of this model): a failed save is
      answered with its message and the stored user stays as it was. */
  function UpdateUser(users: Users, id: UserId, body: Body, saveError: Option<string>): (r: Updated)
    ensures !IsValidOperation(body) ==> r == Updated(users, BadRequest("Invalid updates!"))
    ensures IsValidOperation(body) && id !in users ==> r == Updated(users, NotFound("User not found"))
    ensures IsValidOperation(body) && id in users && saveError.Some? ==>
      r == Updated(users, BadRequest(saveError.value))
    ensures IsValidOperation(body) && id in users && saveError.None? ==>
      && r.response.Ok?
      && r.users == users[id := r.response.user]
      && r.response.user.id == users[id].id
      && r.response.user.password == users[id].password
      && forall k :: k in AllowedUpdates ==>
           Field(r.response.user, k) == LastDefined(body, k).GetOr(Field(users[id], k))
  {
    if !IsValidOperation(body) then Updated(users, BadRequest("Invalid updates!"))
    else if id !in users then Updated(users, NotFound("User not found"))
    else if saveError.Some? then Updated(users, BadRequest(saveError.value))
    else
      ApplyUpdatesMeetsSpec(users[id], body);
      var u := ApplyUpdates(users[id], body);
      Updated(users[id := u], Ok(u))
  }

  /** A message of the conversation between `me` and `other`, in either direction. */
  predicate Between(m: Message, me: UserId, other: UserId) {
    (m.sender == Some(me) && m.receiver == Some(other)) ||
    (m.sender == Some(other) && m.receiver == Some(me))
  }

  /** The ids of the messages the history query matches. */
  function Conversation(store: Store, me: UserId, other: UserId): set<MessageId> {
    set id | id in store && Between(store[id], me, other)
  }

  predicate SortedByTime(s: seq<Message>) {
    forall i, j :: 0 <= i < j < |s| ==> s[i].timestamp <= s[j].timestamp
  }

  /** Facts about the tail of a sorted list of distinct messages that a message with a
      new id is inserted into. */
  lemma TailFacts(s: seq<Message>, m: Message)
    requires |s| > 0 && SortedByTime(s)
    ensures SortedByTime(s[1..])
    ensures forall x :: x in s[1..] ==> s[0].timestamp <= x.timestamp
    ensures DistinctIds(s) && m.id !in IdsOf(s) ==>
      && DistinctIds(s[1..]) && m.id !in IdsOf(s[1..])
      && m.id != s[0].id && forall x :: x in s[1..] ==> x.id != s[0].id
  {
    forall x | x in s[1..] ensures s[0].timestamp <= x.timestamp && (DistinctIds(s) ==> x.id != s[0].id) {
      var k :| 0 <= k < |s[1..]| && s[1..][k] == x;
      assert s[k + 1] == x;
    }
    if DistinctIds(s) && m.id !in IdsOf(s) {
      assert s[0] in s;
      forall x | x in s[1..] ensures x.id != m.id {
        var k :| 0 <= k < |s[1..]| && s[1..][k] == x;
        assert s[k + 1] in s;
      }
    }
  }

  lemma ConsDistinct(x: Message, rest: seq<Message>)
    ensures DistinctIds(rest) && (forall y :: y in rest ==> y.id != x.id) ==> DistinctIds([x] + rest)
  {
    if DistinctIds(rest) && forall y :: y in rest ==> y.id != x.id {
      forall i, j | 0 <= i < j < |[x] + rest| ensures ([x] + rest)[i].id != ([x] + rest)[j].id {
        if i == 0 {
          assert ([x] + rest)[j] == rest[j - 1] && rest[j - 1] in rest;
        }
      }
    }
  }

  /** Prepending the head of a sorted list to a sorted list of later-or-equal messages
      keeps it sorted. */
  lemma ConsSorted(x: Message, rest: seq<Message>)
    requires SortedByTime(rest)
    requires forall y :: y in rest ==> x.timestamp <= y.timestamp
    ensures SortedByTime([x] + rest)
  {
    var r := [x] + rest;
    forall i, j | 0 <= i < j < |r| ensures r[i].timestamp <= r[j].timestamp {
      assert r[j] == rest[j - 1];
      if i == 0 {
        assert rest[j - 1] in rest;
      } else {
        assert r[i] == rest[i - 1];
      }
    }
  }

  /** Prepending the head of a sorted list to the insertion into its tail gives a sorted
      list holding the whole list and `m`. */
  lemma ConsInsert(s: seq<Message>, m: Message, rest: seq<Message>)
    requires |s| > 0 && SortedByTime(s) && s[0].timestamp <= m.timestamp
    requires SortedByTime(rest) && multiset(rest) == multiset(s[1..]) + multiset{m}
    requires forall x :: x in rest <==> x in s[1..] || x == m
    requires DistinctIds(s[1..]) && m.id !in IdsOf(s[1..]) ==> DistinctIds(rest)
    ensures SortedByTime([s[0]] + rest)
    ensures multiset([s[0]] + rest) == multiset(s) + multiset{m}
    ensures DistinctIds(s) && m.id !in IdsOf(s) ==> DistinctIds([s[0]] + rest)
  {
    TailFacts(s, m);
    ConsSorted(s[0], rest);
    assert s == [s[0]] + s[1..];
    assert multiset(s) == multiset{s[0]} + multiset(s[1..]);
    ConsDistinct(s[0], rest);
  }

  /** Inserts `m` after every message not later than it. */
  function InsertByTime(s: seq<Message>, m: Message): (r: seq<Message>)
    requires SortedByTime(s)
    ensures SortedByTime(r)
    ensures |r| == |s| + 1
    ensures multiset(r) == multiset(s) + multiset{m}
    ensures forall x :: x in r <==> x in s || x == m
    ensures DistinctIds(s) && m.id !in IdsOf(s) ==> DistinctIds(r)
    decreases |s|
  {
    if |s| == 0 then [m]
    else if m.timestamp < s[0].timestamp then
      ConsDistinct(m, s);
      [m] + s
    else
      TailFacts(s, m);
      var rest := InsertByTime(s[1..], m);
      ConsInsert(s, m, rest);
      [s[0]] + rest
  }

  /** `GET /messages/:userId`: exactly the stored messages between the caller and
      `other`, in either direction, each once, sorted by timestamp. */
  method History(store: Store, me: UserId, other: UserId) returns (r: seq<Message>)
    ensures SortedByTime(r)
    ensures DistinctIds(r)
    ensures IdsOf(r) == Conversation(store, me, other)
    ensures forall i :: 0 <= i < |r| ==> r[i].id in store && store[r[i].id] == r[i]
  {
    var keys := store.Keys;
    ghost var done: set<MessageId> := {};
    r := [];
    while keys != {}
      invariant keys + done == store.Keys && keys !! done
      invariant SortedByTime(r)
      invariant DistinctIds(r)
      invariant IdsOf(r) == Conversation(store, me, other) * done
      invariant forall x :: x in r ==> x.id in store && store[x.id] == x
      decreases keys
    {
      var k :| k in keys;
      if Between(store[k], me, other) {
        var m := store[k];
        assert m.id == k && m.id !in IdsOf(r);
        var r' := InsertByTime(r, m);
        assert IdsOf(r') == IdsOf(r) + {k};
        r := r';
      }
      keys := keys - {k};
      done := done + {k};
    }
    assert forall i :: 0 <= i < |r| ==> r[i] in r;
  }
}
