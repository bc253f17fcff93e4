/**
 An end-to-end exchange between two users who follow each other: the
 follows, two messages, the history, and the conversation list.
 */
module Scenario {

  import opened Outcomes
  import opened Users
  import opened SocialGraph
  import opened Messaging
  import opened Conversations

  function Fresh(id: UserId, name: string): User {
    User(id, name, name + "@example.com", "secret", Traveller, None, "", [], [], [])
  }

  /** Two users who do not follow anybody yet. */
  function Start(): Store {
    map["a" := Fresh("a", "Ann"), "b" := Fresh("b", "Bob")]
  }

  /** "a" follows "b", then "b" follows "a". */
  function Befriended(): Store {
    Follow(Follow(Start(), "a", "b").after, "b", "a").after
  }

  const Hello := Message("a", "b", "Hello", 1, false)
  const HiBack := Message("b", "a", "Hi back", 2, false)

  /** Both follows succeed, and afterwards the two pass the gate. */
  lemma FollowEachOther()
    ensures Follow(Start(), "a", "b").result.Ok?
    ensures Follow(Follow(Start(), "a", "b").after, "b", "a").result.Ok?
    ensures "a" in Befriended() && "b" in Befriended()
    ensures MutualFollow(Befriended(), "a", "b")
    ensures Befriended()["b"].name == "Bob"
  {
    var s1 := Follow(Start(), "a", "b");
    assert s1.result.Ok?;
    assert s1.after["a"].following == ["b"];
    var s2 := Follow(s1.after, "b", "a");
    assert s2.result.Ok?;
    assert s2.after["b"].following == ["a"];
  }

  /** "Hello" and then "Hi back" both go through and are stored in order. */
  lemma ExchangeMessages()
    ensures var t1 := SendMessage(Befriended(), [], "a", Some("b"), Some("Hello"), 1);
      && t1 == Transition([Hello], Ok(Hello))
      && SendMessage(Befriended(), t1.after, "b", Some("a"), Some("Hi back"), 2)
         == Transition([Hello, HiBack], Ok(HiBack))
  {
    FollowEachOther();
    MutualFollowSymmetric(Befriended(), "a", "b");
    var s := Befriended();
    var t1 := SendMessage(s, [], "a", Some("b"), Some("Hello"), 1);
    assert t1.result.Ok?;
    assert t1.after == [] + [Hello] == [Hello];
    var t2 := SendMessage(s, t1.after, "b", Some("a"), Some("Hi back"), 2);
    assert t2.result.Ok?;
    assert t2.result.value == HiBack;
    assert t2.after == [Hello] + [HiBack] == [Hello, HiBack];
  }

  /** Two messages with distinct timestamps have one sorted order. */
  lemma SortedPair(xs: seq<Message>, x: Message, y: Message)
    requires SortedByTime(xs)
    requires multiset(xs) == multiset([x, y])
    requires x.createdAt < y.createdAt
    ensures xs == [x, y]
  {
    assert |xs| == |multiset(xs)| == 2;
    assert xs == [xs[0], xs[1]];
    assert multiset(xs) == multiset{xs[0], xs[1]};
    assert xs[0] in multiset(xs) && xs[1] in multiset(xs);
    assert xs[0].createdAt <= xs[1].createdAt;
  }

  /** Either side reads the history as the two messages, oldest first. */
  lemma HistoryOfExchange(s: Store)
    requires "a" in s && "b" in s && MutualFollow(s, "a", "b")
    ensures MessagesBetweenUsers(s, [Hello, HiBack], "a", "b") == Ok([Hello, HiBack])
  {
    var r := MessagesBetweenUsers(s, [Hello, HiBack], "a", "b");
    var ms := [Hello, HiBack];
    assert multiset(r.value) == multiset(ms) by {
      forall m ensures multiset(r.value)[m] == multiset(ms)[m] {
        if m in ms { assert Between(m, "a", "b"); }
      }
    }
    SortedPair(r.value, Hello, HiBack);
  }

  /** The only counterpart of "a" in the exchange is "b". */
  lemma PeersOfExchange()
    ensures Peers("a", [Hello, HiBack]) == {"b"}
  {
    var ms := [Hello, HiBack];
    forall p | p in Peers("a", ms) ensures p == "b" {
      var m :| m in ms && Involves("a", m) && Counterpart("a", m) == p;
    }
    assert Hello in ms && Involves("a", Hello) && Counterpart("a", Hello) == "b";
  }

  /** "a" has exactly one conversation, with "b", showing the answer. */
  lemma ConversationsOfExchange(s: Store)
    requires "b" in s && s["b"].name == "Bob"
    ensures var convs := GetConversations(s, [Hello, HiBack], "a");
      && convs.Keys == {"b"}
      && convs["b"].lastMessage == "Hi back"
      && convs["b"].lastMessageTime == 2
      && convs["b"].user.name == "Bob"
  {
    var ms := [Hello, HiBack];
    PeersOfExchange();
    UniqueNewestIsShown(s, ms, "a", "b", HiBack);
  }
}
