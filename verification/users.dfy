/**
 The user records of the document store, as the handlers use them. The
 User schema itself is not part of this model: its fields are the ones the
 controllers read and write.
 */
module Users {

  import opened Outcomes

  /** A user's `_id`, compared through its string form. */
  type UserId = string

  /** The role a user registers with when none is given. */
  const Traveller: string := "traveller"

  /** The role that may create, update and delete itineraries. */
  const TripManager: string := "trip_manager"

  /** A user record. `credential` stands for the password value handed to the
      store, whose hashing happens in the unseen User model. */
  datatype User = User(
    id: UserId,
    name: string,
    email: string,
    credential: string,
    role: string,
    googleId: Option<string>,
    profilePicture: string,
    interests: seq<string>,
    following: seq<UserId>,
    followers: seq<UserId>)

  /** The users collection, keyed by `_id`. */
  type Store = map<UserId, User>

  /** Every record sits under its own id. */
  ghost predicate WellKeyed(s: Store) {
    forall id :: id in s ==> s[id].id == id
  }

  /** The two halves of the follow graph agree for every pair of existing
      users: B is in A's `following` exactly when A is in B's `followers`.
      Pairs with a deleted user are not constrained, because deleting a user
      leaves references to it behind. */
  ghost predicate FollowConsistent(s: Store) {
    forall a, b :: a in s && b in s ==> (b in s[a].following <==> a in s[b].followers)
  }

  /** Some user's email is `email`. */
  predicate EmailTaken(s: Store, email: string) {
    exists id :: id in s && s[id].email == email
  }

  /** The unique index on email: no two users share one. */
  ghost predicate EmailsUnique(s: Store) {
    forall a, b :: a in s && b in s && s[a].email == s[b].email ==> a == b
  }

  /** `User.findOne({ email })`: the user holding `email`, which is unique in
      a store whose email index holds. */
  function FindByEmail(s: Store, email: string): (r: Option<UserId>)
    requires EmailsUnique(s)
    ensures r.Some? <==> EmailTaken(s, email)
    ensures r.Some? ==> r.value in s && s[r.value].email == email
  {
    if EmailTaken(s, email) then
      var id :| id in s && s[id].email == email;
      Some(id)
    else None
  }

  /** Only the records under `ids` may differ, and no record was removed. */
  ghost predicate OthersUnchanged(s: Store, s': Store, ids: set<UserId>) {
    && s.Keys <= s'.Keys
    && forall id :: id in s && id !in ids ==> s'[id] == s[id]
  }
}
