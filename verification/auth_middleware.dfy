/**
 The authentication middleware: `protect` resolves the bearer token of a
 request to a stored user, and the two role checks decide whether the
 resolved user may go on. Verifying a token is a call into the JWT library
 and is a parameter here: it yields the `userId` of a valid token's payload
 or nothing when verification throws.
 */
module AuthMiddleware {

  import opened Outcomes
  import opened JsStrings
  import opened Users

  /** `header.replace('Bearer ', '')`: the first occurrence of the prefix
      is removed, wherever it occurs. */
  function StripBearer(header: string): (token: string)
    ensures forall i: nat :: FirstOccurrence(header, "Bearer ", i) ==>
      |token| == |header| - 7 && token == header[..i] + header[i + 7..]
    ensures (forall k :: 0 <= k <= |header| ==> !OccursAt(header, "Bearer ", k)) ==> token == header
  {
    var token := ReplaceFirst(header, "Bearer ", "");
    assert forall i: nat :: FirstOccurrence(header, "Bearer ", i) ==>
      token == header[..i] + "" + header[i + 7..] == header[..i] + header[i + 7..];
    token
  }

  /** A header of the form `Bearer <t>` yields exactly `t`. */
  lemma StripBearerPrefix(t: string)
    ensures StripBearer("Bearer " + t) == t
  {
    var h := "Bearer " + t;
    assert OccursAt(h, "Bearer ", 0) by { assert h[0..7] == "Bearer "; }
    assert FirstOccurrence(h, "Bearer ", 0);
    assert h[7..] == t;
  }

  /** A header without the prefix is used as the token unchanged. */
  lemma StripBearerWithoutPrefix(h: string)
    requires forall k :: 0 <= k <= |h| ==> !OccursAt(h, "Bearer ", k)
    ensures StripBearer(h) == h
  {
  }

  /** `protect`: 401 without a header or with an empty token (before any
      verification), 401 when verification fails, 401 when the token's user
      no longer exists; otherwise the request goes on carrying that user. */
  function Protect(s: Store, header: Option<string>, verify: string -> Option<UserId>): (r: Result<User>)
    ensures r.Fail? ==> r.failure.Unauthorized?
    ensures header.None? || StripBearer(header.value) == "" ==>
      r == Fail(Unauthorized("Access denied. No token provided."))
    ensures header.Some? && StripBearer(header.value) != "" && verify(StripBearer(header.value)).None? ==>
      r == Fail(Unauthorized("Invalid token."))
    ensures (header.Some? && StripBearer(header.value) != "" && verify(StripBearer(header.value)).Some?
      && verify(StripBearer(header.value)).value !in s) ==>
      r == Fail(Unauthorized("Invalid token. User not found."))
    ensures r.Ok? <==>
      && header.Some? && StripBearer(header.value) != ""
      && verify(StripBearer(header.value)).Some?
      && verify(StripBearer(header.value)).value in s
    ensures r.Ok? ==> r.value == s[verify(StripBearer(header.value)).value]
  {
    if header.None? then Fail(Unauthorized("Access denied. No token provided."))
    else
      var token := StripBearer(header.value);
      if token == "" then Fail(Unauthorized("Access denied. No token provided."))
      else match verify(token)
        case None => Fail(Unauthorized("Invalid token."))
        case Some(userId) =>
          if userId !in s then Fail(Unauthorized("Invalid token. User not found."))
          else Ok(s[userId])
  }

  /** `isTripManager`: passes exactly when a user is attached and its role
      is trip_manager; otherwise 403. */
  function IsTripManager(user: Option<User>): (r: Result<()>)
    ensures r.Ok? <==> user.Some? && user.value.role == TripManager
    ensures r.Fail? ==> r.failure == Forbidden("Access denied. Trip manager role required.")
  {
    if user.Some? && user.value.role == TripManager then Ok(())
    else Fail(Forbidden("Access denied. Trip manager role required."))
  }

  /** `isOwnerOrTripManager`: passes exactly when a user is attached and is a
      trip manager or the owner recorded on the request; otherwise 403. */
  function IsOwnerOrTripManager(user: Option<User>, resourceOwnerId: Option<UserId>): (r: Result<()>)
    ensures r.Ok? <==> user.Some? && (user.value.role == TripManager || resourceOwnerId == Some(user.value.id))
    ensures r.Fail? ==> r.failure == Forbidden("Access denied. Insufficient permissions.")
  {
    if user.Some? && (user.value.role == TripManager || resourceOwnerId == Some(user.value.id)) then Ok(())
    else Fail(Forbidden("Access denied. Insufficient permissions."))
  }

  /** Whoever passes the trip-manager check passes the owner check too. */
  lemma TripManagerIsOwnerOrTripManager(user: Option<User>, resourceOwnerId: Option<UserId>)
    ensures IsTripManager(user).Ok? ==> IsOwnerOrTripManager(user, resourceOwnerId).Ok?
  {
  }
}
