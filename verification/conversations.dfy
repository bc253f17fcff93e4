/**
 The conversation list of a user: the user's messages grouped by
 counterpart, keeping the newest message of each group, joined with the
 counterpart's display details. The source builds it with an aggregation
 whose output order is not fixed, so the model gives the groups keyed by
 counterpart.
 */
module Conversations {

  import opened Outcomes
  import opened Users
  import opened Messaging

  /** The display details of the counterpart. */
  datatype Contact = Contact(id: UserId, name: string, email: string, profilePicture: string)

  /** One entry of the conversation list. */
  datatype Conversation = Conversation(
    id: UserId,
    user: Contact,
    lastMessage: string,
    lastMessageTime: nat,
    unreadCount: nat)

  /** The user sent or received `m`. */
  predicate Involves(u: UserId, m: Message) {
    m.sender == u || m.receiver == u
  }

  /** The other side of `m` as seen by `u`: the receiver when `u` sent it,
      otherwise the sender. */
  function Counterpart(u: UserId, m: Message): UserId {
    if m.sender == u then m.receiver else m.sender
  }

  /** Every counterpart `u` has exchanged a message with. */
  function Peers(u: UserId, ms: seq<Message>): set<UserId> {
    set m | m in ms && Involves(u, m) :: Counterpart(u, m)
  }

  /** `m` belongs to the group of counterpart `p`. */
  predicate InGroup(u: UserId, p: UserId, m: Message) {
    Involves(u, m) && Counterpart(u, m) == p
  }

  /** Keep `m` as the newest of its group unless the group already holds a
      message that is at least as new. */
  function Record(latest: map<UserId, Message>, p: UserId, m: Message): (r: map<UserId, Message>)
    ensures r.Keys == latest.Keys + {p}
    ensures p in latest ==> r[p].createdAt >= latest[p].createdAt
    ensures r[p].createdAt >= m.createdAt
    ensures r[p] == m || (p in latest && r[p] == latest[p])
    ensures forall q :: q in latest && q != p ==> r[q] == latest[q]
  {
    if p in latest && latest[p].createdAt >= m.createdAt then latest else latest[p := m]
  }

  /** The `$group` stage: for every counterpart, the newest message of its
      group. Of several equally new messages the one stored first is kept. */
  function LatestByPeer(u: UserId, ms: seq<Message>): (r: map<UserId, Message>)
    ensures r.Keys == Peers(u, ms)
    ensures forall p :: p in r ==> r[p] in ms && InGroup(u, p, r[p])
    ensures forall p, m :: p in r && m in ms && InGroup(u, p, m) ==> m.createdAt <= r[p].createdAt
    decreases |ms|
  {
    if ms == [] then map[]
    else
      var init := ms[..|ms| - 1];
      var m := ms[|ms| - 1];
      assert ms == init + [m];
      var prev := LatestByPeer(u, init);
      assert Peers(u, ms) == Peers(u, init) + (if Involves(u, m) then {Counterpart(u, m)} else {});
      if Involves(u, m) then Record(prev, Counterpart(u, m), m) else prev
  }

  /** The `$project` and formatting steps: a counterpart without a user
      record, or with an empty name, gets the placeholder name; empty
      email and picture stay empty; the unread count is always zero. */
  function Format(s: Store, p: UserId, last: Message): (c: Conversation)
    ensures c.id == p && c.user.id == p
    ensures c.unreadCount == 0
    ensures c.lastMessage == last.content && c.lastMessageTime == last.createdAt
    ensures p !in s ==> c.user == Contact(p, "Unknown User", "", "")
    ensures p in s ==> c.user == Contact(p, if s[p].name == "" then "Unknown User" else s[p].name,
                                         s[p].email, s[p].profilePicture)
  {
    var contact := if p in s then Contact(p, if s[p].name != "" then s[p].name else "Unknown User",
                                          s[p].email, s[p].profilePicture)
                   else Contact(p, "Unknown User", "", "");
    Conversation(p, contact, last.content, last.createdAt, 0)
  }

  /** `getConversations`: one entry per counterpart the user exchanged a
      message with, carrying the newest message of that pair. */
  function GetConversations(s: Store, ms: seq<Message>, u: UserId): (r: map<UserId, Conversation>)
    ensures r.Keys == Peers(u, ms)
    ensures forall p :: p in r ==>
      && r[p].id == p
      && r[p].unreadCount == 0
      && (exists m :: m in ms && InGroup(u, p, m) && m.content == r[p].lastMessage && m.createdAt == r[p].lastMessageTime)
      && (forall m :: m in ms && InGroup(u, p, m) ==> m.createdAt <= r[p].lastMessageTime)
    ensures forall p :: p in r && p !in s ==> r[p].user == Contact(p, "Unknown User", "", "")
    ensures forall p :: p in r && p in s ==>
      r[p].user == Contact(p, if s[p].name == "" then "Unknown User" else s[p].name,
                           s[p].email, s[p].profilePicture)
  {
    var latest := LatestByPeer(u, ms);
    map p | p in latest :: Format(s, p, latest[p])
  }

  /** When one message of a group is strictly newer than every other, the
      conversation shows that message. */
  lemma UniqueNewestIsShown(s: Store, ms: seq<Message>, u: UserId, p: UserId, m: Message)
    requires m in ms && InGroup(u, p, m)
    requires forall m' :: m' in ms && InGroup(u, p, m') && m' != m ==> m'.createdAt < m.createdAt
    ensures p in GetConversations(s, ms, u)
    ensures GetConversations(s, ms, u)[p].lastMessage == m.content
    ensures GetConversations(s, ms, u)[p].lastMessageTime == m.createdAt
  {
    var r := GetConversations(s, ms, u);
    assert p in Peers(u, ms);
    var m' :| m' in ms && InGroup(u, p, m') && m'.content == r[p].lastMessage && m'.createdAt == r[p].lastMessageTime;
    assert m.createdAt <= r[p].lastMessageTime;
  }
}
