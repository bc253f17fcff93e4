/**
 Direct messages between users, gated by mutual follow: sending, reading the
 history with one user, and marking a user's messages as read. The Message
 schema is not part of this model: a message carries the fields the
 controller reads and writes, `createdAt` is a timestamp supplied by the
 caller, and `read` starts out false.
 */
module Messaging {

  import opened Outcomes
  import opened Users

  datatype Message = Message(
    sender: UserId,
    receiver: UserId,
    content: string,
    createdAt: nat,
    read: bool)

  const GateMessage: string := "You can only message users who follow you and you follow back"

  /** The mutual-follow gate: each of the two users follows the other. */
  predicate MutualFollow(s: Store, a: UserId, b: UserId)
    requires a in s && b in s
    // on a consistent store this is what getMutualFollowers lists for `a`
    ensures FollowConsistent(s) ==>
      (MutualFollow(s, a, b) <==> b in s[a].following && b in s[a].followers)
  {
    b in s[a].following && a in s[b].following
  }

  /** The gate does not depend on who asks. */
  lemma MutualFollowSymmetric(s: Store, a: UserId, b: UserId)
    requires a in s && b in s
    ensures MutualFollow(s, a, b) <==> MutualFollow(s, b, a)
  {
  }

  /** `sendMessage`: 400 without a recipient id or with empty content (before
      any lookup; whitespace-only content is accepted), 404 when either user
      is missing, 403 when the gate fails; otherwise one unread message is
      appended. */
  function SendMessage(s: Store, ms: seq<Message>, sender: UserId,
                       recipientId: Option<string>, content: Option<string>, now: nat)
    : (r: Transition<seq<Message>, Message>)
    ensures !Present(recipientId) || !Present(content)
      <==> r.result == Fail(BadRequest("Recipient ID and message content are required"))
    ensures r.result == Fail(NotFound("User not found"))
      <==> Present(recipientId) && Present(content) && (sender !in s || recipientId.value !in s)
    ensures r.result == Fail(Forbidden(GateMessage))
      <==> Present(recipientId) && Present(content) && sender in s && recipientId.value in s
           && !MutualFollow(s, sender, recipientId.value)
    ensures r.result.Ok?
      <==> Present(recipientId) && Present(content) && sender in s && recipientId.value in s
           && MutualFollow(s, sender, recipientId.value)
    ensures r.result.Fail? ==> r.after == ms
    ensures r.result.Ok? ==>
      && r.result.value == Message(sender, recipientId.value, content.value, now, false)
      && r.after == ms + [r.result.value]
  {
    if !Present(recipientId) || !Present(content) then
      Transition(ms, Fail(BadRequest("Recipient ID and message content are required")))
    else
      var recipient := recipientId.value;
      if sender !in s || recipient !in s then Transition(ms, Fail(NotFound("User not found")))
      else if !MutualFollow(s, sender, recipient) then Transition(ms, Fail(Forbidden(GateMessage)))
      else
        var m := Message(sender, recipient, content.value, now, false);
        Transition(ms + [m], Ok(m))
  }

  /** `m` was exchanged between `a` and `b`, in either direction. */
  predicate Between(m: Message, a: UserId, b: UserId) {
    (m.sender == a && m.receiver == b) || (m.sender == b && m.receiver == a)
  }

  /** The messages between `a` and `b`, in store order. */
  function Conversation(ms: seq<Message>, a: UserId, b: UserId): (r: seq<Message>)
    ensures forall m :: m in r <==> m in ms && Between(m, a, b)
  {
    if ms == [] then []
    else
      var rest := Conversation(ms[1..], a, b);
      if Between(ms[0], a, b) then [ms[0]] + rest else rest
  }

  /** The conversation holds each message between the pair exactly as often
      as the store does, and nothing else. */
  lemma {:induction false} ConversationCounts(ms: seq<Message>, a: UserId, b: UserId)
    ensures forall m :: multiset(Conversation(ms, a, b))[m] == if Between(m, a, b) then multiset(ms)[m] else 0
    decreases |ms|
  {
    if ms != [] {
      assert ms == [ms[0]] + ms[1..];
      ConversationCounts(ms[1..], a, b);
    }
  }

  /** Appending a message to the store appends it to its conversation. */
  lemma {:induction false} ConversationAppend(ms: seq<Message>, m: Message, a: UserId, b: UserId)
    ensures Conversation(ms + [m], a, b) == Conversation(ms, a, b) + (if Between(m, a, b) then [m] else [])
    decreases |ms|
  {
    if ms == [] {
      assert [m][1..] == [];
    } else {
      assert (ms + [m])[0] == ms[0];
      assert (ms + [m])[1..] == ms[1..] + [m];
      ConversationAppend(ms[1..], m, a, b);
    }
  }

  /** Timestamps never decrease along `ms`. */
  predicate SortedByTime(ms: seq<Message>) {
    forall i, j :: 0 <= i < j < |ms| ==> ms[i].createdAt <= ms[j].createdAt
  }

  /** Putting a message no newer than all others in front keeps the order. */
  lemma SortedCons(x: Message, ms: seq<Message>)
    requires SortedByTime(ms)
    requires forall k :: 0 <= k < |ms| ==> x.createdAt <= ms[k].createdAt
    ensures SortedByTime([x] + ms)
  {
    var r := [x] + ms;
    forall i, j | 0 <= i < j < |r|
      ensures r[i].createdAt <= r[j].createdAt
    {
      assert r[j] == ms[j - 1];
      if i > 0 { assert r[i] == ms[i - 1]; }
    }
  }

  /** Insert `m` into a time-sorted list, before every message that is not
      older. */
  function InsertByTime(m: Message, ms: seq<Message>): (r: seq<Message>)
    requires SortedByTime(ms)
    ensures SortedByTime(r)
    ensures multiset(r) == multiset(ms) + multiset{m}
    ensures |r| == |ms| + 1
    ensures forall k :: 0 <= k < |r| ==> r[k] == m || r[k] in ms
  {
    if ms == [] then [m]
    else if m.createdAt <= ms[0].createdAt then
      SortedCons(m, ms);
      [m] + ms
    else
      var rest := InsertByTime(m, ms[1..]);
      InsertBehind(m, ms, rest);
      [ms[0]] + rest
  }

  /** The step of `InsertByTime` that keeps the head of `ms` in front: the
      head is no newer than anything in `rest`, which is `m` inserted into
      the tail. */
  lemma InsertBehind(m: Message, ms: seq<Message>, rest: seq<Message>)
    requires ms != [] && SortedByTime(ms) && m.createdAt > ms[0].createdAt
    requires SortedByTime(rest)
    requires multiset(rest) == multiset(ms[1..]) + multiset{m}
    requires forall k :: 0 <= k < |rest| ==> rest[k] == m || rest[k] in ms[1..]
    ensures SortedByTime([ms[0]] + rest)
    ensures multiset([ms[0]] + rest) == multiset(ms) + multiset{m}
    ensures forall k :: 0 <= k < |rest| + 1 ==> ([ms[0]] + rest)[k] == m || ([ms[0]] + rest)[k] in ms
  {
    assert ms == [ms[0]] + ms[1..];
    forall k | 0 <= k < |rest|
      ensures ms[0].createdAt <= rest[k].createdAt
    {
      if rest[k] != m {
        var j :| 0 <= j < |ms[1..]| && ms[1..][j] == rest[k];
        assert ms[j + 1] == rest[k];
      }
    }
    SortedCons(ms[0], rest);
  }

  /** `.sort({ createdAt: 1 })`: oldest first, a rearrangement of `ms`. */
  function SortByTime(ms: seq<Message>): (r: seq<Message>)
    ensures SortedByTime(r)
    ensures multiset(r) == multiset(ms)
    ensures |r| == |ms|
  {
    if ms == [] then []
    else
      assert ms == [ms[0]] + ms[1..];
      InsertByTime(ms[0], SortByTime(ms[1..]))
  }

  /** `getMessagesBetweenUsers`: 404 when either user is missing, 403 when
      the gate fails; otherwise every message between the two users, in both
      directions, oldest first. */
  function MessagesBetweenUsers(s: Store, ms: seq<Message>, current: UserId, other: UserId)
    : (r: Result<seq<Message>>)
    ensures r == Fail(NotFound("User not found")) <==> current !in s || other !in s
    ensures r == Fail(Forbidden(GateMessage)) <==> current in s && other in s && !MutualFollow(s, current, other)
    ensures r.Ok? <==> current in s && other in s && MutualFollow(s, current, other)
    ensures r.Ok? ==>
      && SortedByTime(r.value)
      && (forall m :: multiset(r.value)[m] == if Between(m, current, other) then multiset(ms)[m] else 0)
  {
    if current !in s || other !in s then Fail(NotFound("User not found"))
    else if !MutualFollow(s, current, other) then Fail(Forbidden(GateMessage))
    else
      ConversationCounts(ms, current, other);
      Ok(SortByTime(Conversation(ms, current, other)))
  }

  /** After a successful send, the history of the pair holds exactly one
      more message: the one sent, unread. */
  lemma SendThenList(s: Store, ms: seq<Message>, sender: UserId,
                     recipientId: Option<string>, content: Option<string>, now: nat)
    requires SendMessage(s, ms, sender, recipientId, content, now).result.Ok?
    ensures var t := SendMessage(s, ms, sender, recipientId, content, now);
      var before := MessagesBetweenUsers(s, ms, sender, recipientId.value);
      var after := MessagesBetweenUsers(s, t.after, sender, recipientId.value);
      && before.Ok? && after.Ok?
      && multiset(after.value) == multiset(before.value) + multiset{t.result.value}
      && t.result.value.sender == sender && !t.result.value.read
  {
    var t := SendMessage(s, ms, sender, recipientId, content, now);
    ConversationAppend(ms, t.result.value, sender, recipientId.value);
  }

  /** `m` is an unread message from `from` to `to`. */
  predicate UnreadFromTo(m: Message, from: UserId, to: UserId) {
    m.sender == from && m.receiver == to && !m.read
  }

  /** `markMessagesAsRead`: every unread message from `other` to `current`
      becomes read; no user is looked up and no gate is checked. */
  function MarkMessagesAsRead(ms: seq<Message>, current: UserId, other: UserId): (r: Transition<seq<Message>, ()>)
    ensures r.result.Ok?
    ensures |r.after| == |ms|
    ensures forall i :: 0 <= i < |ms| ==>
      && r.after[i].(read := ms[i].read) == ms[i]
      && (r.after[i].read <==> ms[i].read || (ms[i].sender == other && ms[i].receiver == current))
    ensures forall m :: m in r.after ==> !UnreadFromTo(m, other, current)
  {
    var after := seq(|ms|, i requires 0 <= i < |ms| =>
      if UnreadFromTo(ms[i], other, current) then ms[i].(read := true) else ms[i]);
    Transition(after, Ok(()))
  }

  /** Marking twice is marking once. */
  lemma MarkMessagesAsReadIdempotent(ms: seq<Message>, current: UserId, other: UserId)
    ensures var once := MarkMessagesAsRead(ms, current, other).after;
      MarkMessagesAsRead(once, current, other).after == once
  {
  }

  /** The number of unread messages from `from` to `to`: what a mark-read
      call updates. */
  function UnreadCount(ms: seq<Message>, from: UserId, to: UserId): (n: nat)
    ensures n <= |ms|
    ensures n == 0 <==> forall i :: 0 <= i < |ms| ==> !UnreadFromTo(ms[i], from, to)
  {
    if ms == [] then 0
    else (if UnreadFromTo(ms[0], from, to) then 1 else 0) + UnreadCount(ms[1..], from, to)
  }

  /** A store without such messages has count zero, so a second mark-read
      call updates nothing. */
  lemma {:induction false} UnreadCountZero(ms: seq<Message>, from: UserId, to: UserId)
    requires forall m :: m in ms ==> !UnreadFromTo(m, from, to)
    ensures UnreadCount(ms, from, to) == 0
    decreases |ms|
  {
    if ms != [] {
      assert ms[0] in ms;
      assert forall m :: m in ms[1..] ==> m in ms;
      UnreadCountZero(ms[1..], from, to);
    }
  }

  /** After a mark-read call, a second call has nothing left to update. */
  lemma MarkMessagesAsReadLeavesNothing(ms: seq<Message>, current: UserId, other: UserId)
    ensures UnreadCount(MarkMessagesAsRead(ms, current, other).after, other, current) == 0
  {
    UnreadCountZero(MarkMessagesAsRead(ms, current, other).after, other, current);
  }
}
