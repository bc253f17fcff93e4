/**
 The follow graph handlers of the user controller: follow, unfollow, the
 follow-status check and the mutual-followers list. Each handler is one
 atomic step over the users collection; `current` is the id of the
 authenticated user.
 */
module SocialGraph {

  import opened Outcomes
  import opened Lists
  import opened Users

  /** `followUser`: target must exist (404), must not be the caller (400),
      must not be followed already (400); then the target is added to the
      caller's `following` and the caller to the target's `followers`. */
  function Follow(s: Store, current: UserId, target: UserId): (r: Transition<Store, ()>)
    // guard order: missing target, then self-follow, then already following
    ensures target !in s <==> r.result == Fail(NotFound("User not found"))
    ensures target in s && current == target <==> r.result == Fail(BadRequest("Cannot follow yourself"))
    ensures r.result == Fail(BadRequest("Already following this user"))
      <==> target in s && current != target && current in s && target in s[current].following
    ensures r.result == Fail(ServerError) <==> target in s && current != target && current !in s
    ensures r.result.Fail? ==> r.after == s
    ensures r.result.Ok? <==> target in s && current in s && current != target && target !in s[current].following
    ensures r.result.Ok? ==>
      && r.after.Keys == s.Keys
      && r.after[current].following == s[current].following + [target]
      && r.after[target].followers == AddToSet(s[target].followers, current)
      && r.after[current] == s[current].(following := r.after[current].following)
      && r.after[target] == s[target].(followers := r.after[target].followers)
      && OthersUnchanged(s, r.after, {current, target})
  {
    if target !in s then Transition(s, Fail(NotFound("User not found")))
    else if current == target then Transition(s, Fail(BadRequest("Cannot follow yourself")))
    // the caller's own record is re-read; reading `following` of a missing record throws
    else if current !in s then Transition(s, Fail(ServerError))
    else if target in s[current].following then Transition(s, Fail(BadRequest("Already following this user")))
    else
      var me := s[current];
      var s1 := s[current := me.(following := AddToSet(me.following, target))];
      var them := s1[target];
      var s2 := s1[target := them.(followers := AddToSet(them.followers, current))];
      Transition(s2, Ok(()))
  }

  /** `unfollowUser`: target must exist (404); then every occurrence of the
      target leaves the caller's `following` and every occurrence of the
      caller leaves the target's `followers`. There is no self check, and
      unfollowing someone not followed succeeds without effect. */
  function Unfollow(s: Store, current: UserId, target: UserId): (r: Transition<Store, ()>)
    ensures r.result.Ok? <==> target in s
    ensures r.result.Fail? ==> r.result.failure == NotFound("User not found") && r.after == s
    ensures r.result.Ok? ==>
      && r.after.Keys == s.Keys
      && (current in s ==> target !in r.after[current].following)
      && (current in s && current != target ==>
            r.after[current] == s[current].(following := RemoveAll(s[current].following, target)))
      && (current != target ==>
            r.after[target] == s[target].(followers := RemoveAll(s[target].followers, current)))
      && (current == target ==>
            r.after[target] == s[target].(following := RemoveAll(s[target].following, target),
                                          followers := RemoveAll(s[target].followers, target)))
      && OthersUnchanged(s, r.after, {current, target})
  {
    if target !in s then Transition(s, Fail(NotFound("User not found")))
    else if current == target then
      var me := s[current];
      Transition(s[current := me.(following := RemoveAll(me.following, target),
                                  followers := RemoveAll(me.followers, current))], Ok(()))
    else
      // updating a missing caller record matches nothing and is not an error
      var s1 := if current in s then s[current := s[current].(following := RemoveAll(s[current].following, target))] else s;
      var s2 := s1[target := s[target].(followers := RemoveAll(s[target].followers, current))];
      Transition(s2, Ok(()))
  }

  /** `checkFollowStatus`: whether `userId` is in the caller's `following`. */
  function CheckFollowStatus(s: Store, current: UserId, userId: UserId): (r: Result<bool>)
    ensures r.Ok? <==> current in s
    ensures r.Fail? ==> r.failure == ServerError
    ensures r.Ok? ==> (r.value <==> userId in s[current].following)
  {
    if current !in s then Fail(ServerError)
    else Ok(userId in s[current].following)
  }

  /** The ids `getMutualFollowers` asks the store for: the caller's
      `following` filtered by membership in its `followers`. */
  function MutualIds(u: User): seq<UserId> {
    KeepIn(u.following, u.followers)
  }

  /** `getMutualFollowers`: 404 without a caller record, else the existing
      users whose id is both followed by and following the caller. */
  function MutualFollowers(s: Store, current: UserId): (r: Result<set<UserId>>)
    ensures r.Ok? <==> current in s
    ensures r.Fail? ==> r.failure == NotFound("User not found")
    ensures r.Ok? ==> forall id :: id in r.value <==>
      id in s && id in s[current].following && id in s[current].followers
  {
    if current !in s then Fail(NotFound("User not found"))
    else
      var ids := MutualIds(s[current]);
      Ok(set id | id in ids && id in s)
  }

  /** The mutual ids are the followed ids that also follow back, in
      `following` order, with no other id. */
  lemma MutualIdsOrder(u: User, a: seq<UserId>, b: seq<UserId>)
    requires u.following == a + b
    ensures MutualIds(u) == KeepIn(a, u.followers) + KeepIn(b, u.followers)
    ensures forall id :: id in MutualIds(u) <==> id in u.following && id in u.followers
  {
    KeepInConcat(a, b, u.followers);
  }

  /** A successful follow keeps the two halves of the graph in agreement. */
  lemma FollowPreservesConsistency(s: Store, current: UserId, target: UserId)
    requires FollowConsistent(s)
    ensures FollowConsistent(Follow(s, current, target).after)
  {
    var r := Follow(s, current, target);
    if r.result.Ok? {
      var s' := r.after;
      forall a, b | a in s' && b in s'
        ensures b in s'[a].following <==> a in s'[b].followers
      {
        assert b in s[a].following <==> a in s[b].followers;
      }
    }
  }

  /** A successful unfollow keeps the two halves of the graph in agreement. */
  lemma UnfollowPreservesConsistency(s: Store, current: UserId, target: UserId)
    requires FollowConsistent(s)
    ensures FollowConsistent(Unfollow(s, current, target).after)
  {
    var r := Unfollow(s, current, target);
    if r.result.Ok? {
      var s' := r.after;
      forall a, b | a in s' && b in s'
        ensures b in s'[a].following <==> a in s'[b].followers
      {
        assert b in s[a].following <==> a in s[b].followers;
      }
    }
  }

  /** In a consistent graph, unfollowing right after a successful follow gives
      back the store as it was. */
  lemma FollowThenUnfollow(s: Store, current: UserId, target: UserId)
    requires FollowConsistent(s)
    requires Follow(s, current, target).result.Ok?
    ensures Unfollow(Follow(s, current, target).after, current, target) == Transition(s, Ok(()))
  {
    var s1 := Follow(s, current, target).after;
    assert current !in s[target].followers;
    assert s1[target].followers == s[target].followers + [current];
    UnfollowUndoesFollow(s, s1, current, target);
  }

  /** Unfollowing undoes the two appends a follow made. */
  lemma UnfollowUndoesFollow(s: Store, s1: Store, current: UserId, target: UserId)
    requires current in s && target in s && current != target
    requires target !in s[current].following && current !in s[target].followers
    requires s1.Keys == s.Keys
    requires s1[current] == s[current].(following := s[current].following + [target])
    requires s1[target] == s[target].(followers := s[target].followers + [current])
    requires forall k :: k in s && k != current && k != target ==> s1[k] == s[k]
    ensures Unfollow(s1, current, target) == Transition(s, Ok(()))
  {
    AddToSetThenRemoveAll(s[current].following, target);
    AddToSetThenRemoveAll(s[target].followers, current);
    var s2 := Unfollow(s1, current, target).after;
    assert s2[current] == s[current];
    assert s2[target] == s[target];
    assert s2 == s;
  }

  /** After a successful follow the status check answers true; after an
      unfollow it answers false. */
  lemma FollowStatusAfterFollowAndUnfollow(s: Store, current: UserId, target: UserId)
    requires current in s
    ensures Follow(s, current, target).result.Ok? ==>
      CheckFollowStatus(Follow(s, current, target).after, current, target) == Ok(true)
    ensures Unfollow(s, current, target).result.Ok? ==>
      CheckFollowStatus(Unfollow(s, current, target).after, current, target) == Ok(false)
  {
  }
}
