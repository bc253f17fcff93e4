# Journety Craft backend: a Dafny model of its decision logic

Journety Craft is an Express/Mongoose travel backend. Users follow one another, and users who follow each other may send direct messages. Travellers keep wishlists of events and itineraries. Trip managers create itineraries. This project models the decision logic of its handlers as pure functions over an immutable document store, and proves what those handlers promise.

The store is modelled as follows:

- users keyed by id (`Users.Store`);
- messages as a sequence;
- wishlists keyed by owner;
- itineraries keyed by id.

A handler that writes returns a `Transition(after, result)`. A handler that only reads returns a `Result`. A failure is one of `BadRequest`, `Unauthorized`, `Forbidden`, `NotFound` or `ServerError`, and carries the source's own message text. JavaScript truthiness of an optional string (`!x`) is `Present`. A defaulting `x || d` is `OrElse`.

Modules, one per file:

- `outcomes.dfy`: `Option`, `Result`, `Failure`, `Transition`, truthiness.
- `lists.dfy`: the array updates the handlers use: `$addToSet`, `$pull` / `filter(!==)`, and `filter(includes)`.
- `js_strings.dfy`: the JavaScript string operations the handlers use: `trim`, ASCII `toLowerCase`, `replace` of the first occurrence, and `join`.
- `users.dfy`: the user record, the follow-graph invariant, and the unique email index.
- `social_graph.dfy`: `followUser`, `unfollowUser`, `checkFollowStatus`, `getMutualFollowers`.
- `messaging.dfy`: the mutual-follow gate, `sendMessage`, `getMessagesBetweenUsers`, `markMessagesAsRead`.
- `conversations.dfy`: `getConversations`.
- `wishlists.dfy`: the six wishlist handlers.
- `registration.dfy`: `validateRegistration` with its email regular expression, `register`, `googleAuth`.
- `auth_middleware.dfy`: `protect`, `isTripManager`, `isOwnerOrTripManager`.
- `events.dfy`: the Event enums with their defaults, `isFull`, `getAvailableSpots`.
- `itineraries.dfy`: `createItinerary` with the Itinerary schema's validation, and the trip-manager-only write routes.
- `scenario.dfy`: two users who follow each other exchange "Hello" and "Hi back".

Three behaviours of the handlers worth noting:

- `markMessagesAsRead` answers `{ success: true }`, not a count of updated messages. The model returns `Ok(())`.
- `register` never calls `validateRegistration`. Its only checks are presence and an unused email. `Registration.RegisterSkipsValidation` exhibits an accepted request that the validator refuses.
- `createItinerary` never sets `organizer`, which the Itinerary schema requires. A request whose body omits it is always refused with 400 (`Itineraries.CreateWithoutOrganizerFails`).

## Model

| member | source | states |
|---|---|---|
| Lists.AddToSet | src/controllers/userController.js:118-127 | `$addToSet` leaves the list unchanged when the element is already listed, and otherwise appends it at the end. |
| Lists.AddToSetKeepsNoDuplicates | src/controllers/userController.js:118-127 | `$addToSet` never creates a duplicate entry. |
| Lists.RemoveAll | src/controllers/wishlistController.js:76-78 | `$pull` / `filter(!==)` removes exactly the occurrences of the id. Every other element keeps its multiplicity. |
| Lists.RemoveAllConcat | src/controllers/wishlistController.js:76-78 | Removal works piecewise over concatenated lists, so the order of the remaining elements is kept. |
| Lists.RemoveAllAbsent | src/controllers/wishlistController.js:76-78 | Removing an id that is not listed leaves the list unchanged. |
| Lists.RemoveAllIdempotent | src/controllers/userController.js:147-156 | Removing the same id twice is the same as removing it once. |
| Lists.AddToSetThenRemoveAll | src/controllers/userController.js:118-156 | Removing a newly added element restores the list. |
| Lists.RemoveAllKeepsNoDuplicates | src/controllers/userController.js:147-156 | Removal keeps a duplicate-free list duplicate-free. |
| Lists.KeepIn | src/controllers/userController.js:226 | `following.filter(id => followers.includes(id))` holds exactly the elements in both lists and is no longer than the first. |
| Lists.KeepInConcat | src/controllers/userController.js:226 | The filter works piecewise, so the result keeps the order of the first list. |
| JsStrings.TrimStart | src/controllers/authController.js:12-14 | The result is a suffix of the input, and everything dropped is whitespace. |
| JsStrings.TrimEnd | src/controllers/authController.js:12-14 | The result is a prefix of the input, and everything dropped is whitespace. |
| JsStrings.Trim | src/controllers/authController.js:69 | `trim()` returns a contiguous slice of the input. Everything outside the slice is whitespace, and the slice neither starts nor ends with whitespace. |
| JsStrings.TrimEmptyIff | src/controllers/authController.js:12 | The trimmed name is empty exactly when the name is all whitespace. |
| JsStrings.TrimIdempotent | src/controllers/authController.js:69 | Trimming twice is the same as trimming once. |
| JsStrings.ToLower | src/controllers/authController.js:58 | `toLowerCase()` keeps the length, maps each ASCII letter A to Z to its lower-case letter, and leaves every other character unchanged. |
| JsStrings.ToLowerFixesLowerCase | src/controllers/authController.js:70 | Lower-casing an already lower-case email changes nothing. |
| JsStrings.ReplaceFirst | src/middleware/auth.js:6 | `replace(pat, rep)` rewrites the first occurrence of the pattern only. Without an occurrence, it returns the input. |
| JsStrings.Join | src/controllers/itineraryController.js:33-34 | `join` of an empty list is "". A single element is returned as is. The first element always starts the result. |
| JsStrings.JoinAppend | src/controllers/itineraryController.js:33-34 | Joining one more part appends the separator and then that part. Together with the one-element case, this fixes the joined string as the parts in order, with the separator between each two neighbours. |
| Users.FindByEmail | src/controllers/authController.js:179 | `findOne({ email })` finds a user exactly when some user holds the email, and the user it returns holds it. |
| SocialGraph.Follow | src/controllers/userController.js:96-133 | Errors come in this order: 404 for an unknown target, then 400 for a self-follow, then 500 when the caller's record is gone, then 400 when already following. Every failure leaves the store unchanged. On success the target is appended to the caller's `following` and the caller is added to the target's `followers`, and no other field or user changes. |
| SocialGraph.Unfollow | src/controllers/userController.js:136-162 | 404 exactly when the target is unknown, and then nothing changes. There is no self check, and not following is a successful no-op. Otherwise the target leaves the caller's `following` and the caller leaves the target's `followers`, and no other field or user changes. |
| SocialGraph.CheckFollowStatus | src/controllers/userController.js:189-200 | The answer is exactly whether the id is in the caller's `following`. The answer is 500 when the caller's record is gone. |
| SocialGraph.MutualFollowers | src/controllers/userController.js:205-246 | 404 exactly when the caller's record is gone. Otherwise the result is the ids that are both in `following` and in `followers`. |
| SocialGraph.MutualIdsOrder | src/controllers/userController.js:219-226 | The mutual ids keep the order of `following` and hold nothing outside both lists. |
| SocialGraph.FollowPreservesConsistency | src/controllers/userController.js:118-127 | Follow keeps the invariant "B is in A.following exactly when A is in B.followers". |
| SocialGraph.UnfollowPreservesConsistency | src/controllers/userController.js:147-156 | Unfollow keeps the same two-sided invariant. |
| SocialGraph.FollowThenUnfollow | src/controllers/userController.js:118-156 | On a consistent store, an unfollow right after a successful follow restores the store exactly. |
| SocialGraph.UnfollowUndoesFollow | src/controllers/userController.js:147-156 | Unfollow removes exactly the two entries that a follow appended, and gives back the earlier store. |
| SocialGraph.FollowStatusAfterFollowAndUnfollow | src/controllers/userController.js:118-194 | After a successful follow the status check answers true. After an unfollow it answers false. |
| Messaging.MutualFollowSymmetric | src/controllers/messageController.js:100-102 | The mutual-follow gate gives the same answer for (A, B) and (B, A). |
| Messaging.MutualFollow | src/controllers/messageController.js:153-165 | The gate asks each user to follow the other. On a consistent store this means the other user is both in the caller's `following` and in its `followers`, which is what the mutual-followers list shows. |
| Messaging.SendMessage | src/controllers/messageController.js:136-192 | Errors come in this order: 400 without a recipient or content, before any lookup (whitespace-only content passes), then 404 when either user is missing, then 403 when the gate fails. The request succeeds exactly when it passes all three checks. Every failure leaves the messages unchanged. On success exactly one unread message from sender to recipient with that content is appended, and the earlier messages are unchanged. |
| Messaging.Conversation | src/controllers/messageController.js:111-116 | The `$or` query selects exactly the stored messages exchanged between the two users, in either direction. |
| Messaging.ConversationCounts | src/controllers/messageController.js:111-116 | The query keeps each matching message as often as it is stored, and drops every other message. |
| Messaging.ConversationAppend | src/controllers/messageController.js:111-116 | Appending a message extends the pair's history by that message exactly when it belongs to the pair. |
| Messaging.SortedCons | src/controllers/messageController.js:116 | A message no later than every message of a sorted list can be put in front of it. |
| Messaging.InsertByTime | src/controllers/messageController.js:116 | Inserting into a time-sorted list keeps it sorted and adds exactly that one message. |
| Messaging.SortByTime | src/controllers/messageController.js:116 | `sort({ createdAt: 1 })` yields a permutation of its input whose timestamps never decrease. |
| Messaging.MessagesBetweenUsers | src/controllers/messageController.js:83-133 | 404 when either user is missing, else 403 when the gate fails. Two existing users who follow each other always get an answer, and the result is every message between the two, in both directions and with multiplicities, sorted oldest first. |
| Messaging.SendThenList | src/controllers/messageController.js:111-175 | After a successful send, the pair's history grows by exactly the sent message, unread. |
| Messaging.UnreadCount | src/controllers/messageController.js:201-204 | The number of messages the mark-read filter matches is at most the number of messages, and it is zero exactly when no message is unread from the one user to the other. |
| Messaging.MarkMessagesAsRead | src/controllers/messageController.js:195-211 | No gate is checked. The messages keep their number and order. Only the `read` flag changes, and it becomes true exactly on the unread messages from the other user to the caller. None of those is left unread. |
| Messaging.MarkMessagesAsReadIdempotent | src/controllers/messageController.js:201-204 | A second call changes nothing. |
| Messaging.UnreadCountZero | src/controllers/messageController.js:201-204 | A list with no unread message from A to B counts zero such messages. |
| Messaging.MarkMessagesAsReadLeavesNothing | src/controllers/messageController.js:201-204 | After the call, nothing from the other user to the caller is unread. |
| Conversations.Record | src/controllers/messageController.js:21-33 | Keeping the newest message per counterpart: the kept message is never older than before, and the other counterparts are untouched. |
| Conversations.LatestByPeer | src/controllers/messageController.js:12-34 | There is one group per counterpart of the user (the receiver if the user sent it, else the sender). Each group's message is one of the user's messages with that counterpart, and no such message is newer. |
| Conversations.Format | src/controllers/messageController.js:62-73 | A missing counterpart shows "Unknown User" with an empty email and picture, and so does an empty name. The unread count is always 0. |
| Conversations.GetConversations | src/controllers/messageController.js:7-80 | There is exactly one entry per distinct counterpart. Its last message is one of that pair's messages and has the greatest timestamp among them. The unread count is 0. An existing counterpart is shown with its own name, email and picture, and with "Unknown User" when its name is empty. A missing counterpart gets placeholder details. |
| Conversations.UniqueNewestIsShown | src/controllers/messageController.js:21-33 | When one message of a pair is strictly newer than all the others, the conversation shows exactly that message and its time. |
| Wishlists.GetWishlist | src/controllers/wishlistController.js:7-26 | Returns the caller's wishlist. A missing one is created with no events and no itineraries, and otherwise the store is unchanged. |
| Wishlists.GetWishlistIdempotent | src/controllers/wishlistController.js:9-20 | A second call changes nothing and returns the same wishlist. |
| Wishlists.AddItem | src/controllers/wishlistController.js:29-62 | 404 exactly when the item does not exist. 400 exactly when it is already listed. Every other request succeeds. Failures change nothing. Without a wishlist, one is created holding only the id. Otherwise the id is appended at the end of its list, and no other list or wishlist changes. |
| Wishlists.RemoveItem | src/controllers/wishlistController.js:65-85 | 404 exactly when there is no wishlist, and success otherwise. Then every occurrence of the id leaves its list, the rest keep their order, and an absent id changes nothing. |
| Wishlists.AddEventToWishlist | src/controllers/wishlistController.js:29-62 | Adding an event succeeds exactly when the event exists and is not listed yet. It works on `events` only, and no other user's wishlist changes. A new wishlist is `events = [id]` with `itineraries = []`. |
| Wishlists.RemoveEventFromWishlist | src/controllers/wishlistController.js:65-85 | 404 "Wishlist not found" exactly when the caller has no wishlist, and then nothing changes. Otherwise every occurrence of the event leaves `events`, `itineraries` is left alone, and no other user's wishlist changes. |
| Wishlists.AddItineraryToWishlist | src/controllers/wishlistController.js:88-121 | Adding an itinerary succeeds exactly when the itinerary exists and is not listed yet. It works on `itineraries` only, and no other user's wishlist changes. A new wishlist is `events = []` with `itineraries = [id]`. |
| Wishlists.RemoveItineraryFromWishlist | src/controllers/wishlistController.js:124-144 | 404 "Wishlist not found" exactly when the caller has no wishlist, and then nothing changes. Otherwise every occurrence of the itinerary leaves `itineraries`, `events` is left alone, and no other user's wishlist changes. |
| Wishlists.CheckWishlistItem | src/controllers/wishlistController.js:147-171 | 400 exactly when the type is neither "event" nor "itinerary". False without a wishlist. Otherwise, membership in the list of that type. |
| Wishlists.AddKeepsNoDuplicates | src/controllers/wishlistController.js:49-55 | Adding never makes a list hold an id twice. |
| Wishlists.AddThenCheckRemoveThenCheck | src/controllers/wishlistController.js:147-165 | After a successful add, the check answers true. After a successful remove, it answers false. |
| Wishlists.AddThenRemove | src/controllers/wishlistController.js:49-79 | Removing an item right after adding it to an existing wishlist restores the store. |
| Wishlists.HandlersKeepWellKeyed | src/models/Wishlist.js:22 | Every handler keeps each wishlist under its owner, as the unique index on `user` demands. |
| Registration.EmailFormatImpliesRegex | src/controllers/authController.js:19 | Every string the predicate accepts matches `^[^\s@]+@[^\s@]+\.[^\s@]+$`. |
| Registration.RegexImpliesEmailFormat | src/controllers/authController.js:19 | Every match of the regular expression satisfies the predicate. |
| Registration.EmailFormatMatchesRegex | src/controllers/authController.js:19 | The predicate accepts exactly the matches: no whitespace, one `@` with text before it, and a later `.` that is neither first nor last in the domain. |
| Registration.NameError | src/controllers/authController.js:12-16 | "Name is required" exactly for a missing or all-whitespace name. "at least 2 characters" exactly when the trimmed length is 1. |
| Registration.EmailError | src/controllers/authController.js:19-24 | "Email is required" exactly for a missing email. "Invalid email format" exactly when a present email does not match the regular expression. |
| Registration.PasswordError | src/controllers/authController.js:27-31 | "Password is required" exactly for a missing password. The length error appears exactly when the untrimmed length is below 6. |
| Registration.ValidateRegistration | src/controllers/authController.js:8-37 | Valid exactly when no field has an error, and exactly when all three field conditions hold. Each field has at most one error. |
| Registration.Register | src/controllers/authController.js:40-101 | 400 when name, email or password is missing, checked first. Then 400 when the lower-cased email is taken. Every other request succeeds. Failures change nothing. A created user has a trimmed name, a lower-cased email, the role defaulting to traveller, the given interests or none, and no follows. |
| Registration.RegisterSkipsValidation | src/controllers/authController.js:45-74 | A whitespace-only name with a malformed email and a 1-character password is registered, although the validator rejects it. |
| Registration.RegisterKeepsEmailsUnique | src/controllers/authController.js:58-74 | Registration never stores a second user with the same email. |
| Registration.RegisterThenFind | src/controllers/authController.js:58-74 | A registered user is found again by the lookup under the lower-cased email, and registering the same request again is refused with "User already exists" and changes nothing. |
| Registration.RegisterKeepsEmailsLowerCase | src/controllers/authController.js:70 | Registration keeps every stored email lower-case. |
| Registration.GoogleAuth | src/controllers/authController.js:170-220 | 400 exactly when the email or uid is missing, and then nothing changes. A user is created only for an unknown lower-cased email. It gets the given or default name, photo and role, the Google id, and empty interests, following and followers. An existing user gets the Google id only when it has none, an existing id is never overwritten, and nothing else in the record changes. |
| Registration.GoogleAuthKeepsStoreInvariants | src/controllers/authController.js:179-197 | Google sign-in keeps emails unique and every record under its own id. |
| Registration.GoogleAuthTwice | src/controllers/authController.js:179-197 | Repeating a successful Google sign-in creates no second user and changes nothing. |
| AuthMiddleware.StripBearerPrefix | src/middleware/auth.js:6 | A header `Bearer <t>` yields the token `t`. |
| AuthMiddleware.StripBearerWithoutPrefix | src/middleware/auth.js:6 | A header without "Bearer " is used as the token unchanged. |
| AuthMiddleware.StripBearer | src/middleware/auth.js:6 | The token is the header with the first "Bearer " removed, wherever it occurs, and is 7 characters shorter. A header without it is used unchanged. |
| AuthMiddleware.Protect | src/middleware/auth.js:4-24 | Every failure is a 401. A missing header or an empty token gets "Access denied. No token provided." before verification. A token that fails verification gets "Invalid token.", and one whose user no longer exists gets "Invalid token. User not found.". The request passes exactly when the token verifies to an existing user, and then carries that user. |
| AuthMiddleware.IsTripManager | src/middleware/auth.js:27-33 | Passes exactly when a user is attached and its role is trip_manager. Otherwise 403. |
| AuthMiddleware.IsOwnerOrTripManager | src/middleware/auth.js:36-42 | Passes exactly when a user is attached and is a trip manager or the recorded resource owner. Otherwise 403. |
| AuthMiddleware.TripManagerIsOwnerOrTripManager | src/middleware/auth.js:27-42 | Whoever passes the trip-manager check also passes the owner-or-manager check. |
| Events.ParseCategory | src/models/Event.js:21-25 | A category is accepted only under its own spelling. |
| Events.CategoryRoundTrip | src/models/Event.js:21-25 | All six categories are accepted under their own spelling. |
| Events.ParseParticipantStatus | src/models/Event.js:43-47 | A participant status is accepted only under its own spelling. An absent status defaults to registered. |
| Events.ParticipantStatusRoundTrip | src/models/Event.js:43-47 | Each of registered, waitlisted and cancelled is accepted. |
| Events.ParseEventStatus | src/models/Event.js:57-61 | An event status is accepted only under its own spelling. An absent status defaults to draft. |
| Events.EventStatusRoundTrip | src/models/Event.js:57-61 | Each of draft, published, cancelled and completed is accepted. |
| Events.IsFull | src/models/Event.js:75-77 | `isFull` holds exactly when no spot is available. An event without participants is full only when its capacity is at most 0. |
| Events.AvailableSpots | src/models/Event.js:80-82 | Each participant entry takes one spot from the capacity, whatever its status. The consequences are proved in `Events.FullIffNoSpots`, `Events.JoinTakesOneSpot` and `Events.StatusDoesNotCount`. |
| Events.FullIffNoSpots | src/models/Event.js:74-82 | `isFull` holds exactly when `getAvailableSpots()` is at most 0. |
| Events.JoinTakesOneSpot | src/models/Event.js:80-82 | One more participant entry means exactly one spot fewer. The count may go negative. |
| Events.StatusDoesNotCount | src/models/Event.js:75-81 | Both helpers depend only on the number of participant entries, not on their statuses. |
| Events.CancelledEntryFillsEvent | src/models/Event.js:75-77 | A one-seat event whose only entry is cancelled is still full, with 0 spots. |
| Itineraries.RequiredErrors | src/models/Itinerary.js:4-48 | Each `required` message is reported exactly when its field is missing, for each of title, user, organizer, price, days and nights. An empty title counts as missing. Nothing is reported exactly when all six are given. |
| Itineraries.RequiredErrorsAreMessages | src/models/Itinerary.js:4-48 | The six validators report the messages of the missing paths, in schema order. |
| Itineraries.RequiredErrorsOnly | src/models/Itinerary.js:4-48 | No message is reported except the `required` message of a missing path. |
| Itineraries.RequiredErrorsDistinct | src/models/Itinerary.js:4-48 | No `required` message is reported twice. |
| Itineraries.RequiredErrorsOf | src/models/Itinerary.js:4-48 | For any list of required paths, the message of a path is reported exactly when that path is in the list and missing. Nothing else is reported: every message is the message of such a path, and starts with "Path". |
| Itineraries.MissingPaths | src/models/Itinerary.js:4-48 | The missing paths of a list are exactly those in the list that the document leaves out, and they keep the list's schema order. |
| Itineraries.RequiredErrorsOfMissingPaths | src/models/Itinerary.js:4-48 | The reported `required` messages are exactly the messages of the missing paths, one each, in the same order. Proved by induction. |
| Itineraries.SchemaErrors | src/models/Itinerary.js:3-64 | The schema accepts a document exactly when title, user, organizer, price, days and nights are given and any status is one of the four allowed values. The `required` message of each missing field is reported. The enum message for `status` is reported exactly when the status is not allowed. |
| Itineraries.SchemaErrorsOnly | src/models/Itinerary.js:3-64 | No message is reported except the `required` message of a missing path and, for a status that is not allowed, the enum message. |
| Itineraries.SchemaErrorsOrdered | src/models/Itinerary.js:3-64 | The report starts with the `required` messages of the missing paths in schema order, followed by at most one more message. |
| Itineraries.SchemaErrorsDistinct | src/models/Itinerary.js:3-64 | No message is reported twice. |
| Itineraries.SchemaErrorsEnumLast | src/models/Itinerary.js:3-64 | The enum message, when reported, is the last message. |
| Itineraries.ValidationFailure | src/controllers/itineraryController.js:32-35 | A refused save answers 400 with the messages joined by ", ". That answer can never equal either of the controller's own messages. |
| Itineraries.Save | src/controllers/itineraryController.js:21-37 | A save fails exactly when the schema reports an error, and then changes nothing. The failure is a 400 whose message is the schema's messages joined by ", ". Otherwise the document is stored under the new id with the body's title, description, user, organizer, price, days and nights. Its status defaults to Draft and its reward points default to 0. |
| Itineraries.CreateItinerary | src/controllers/itineraryController.js:5-39 | 400 "Missing required fields" exactly when title, destination or a date is missing. Then 400 exactly when the start date is after the end date; equal dates pass. A request succeeds exactly when it passes both checks and the schema accepts the document. Every failure is a 400 and changes nothing. When a request passes both checks but the schema refuses it, the message is the schema's messages for the body with the authenticated user, joined by ", ". The stored itinerary belongs to the authenticated user. It keeps the body's title, description, organizer, price, days, nights and reward points. |
| Itineraries.CreateWithoutOrganizerFails | src/controllers/itineraryController.js:21-26 | A body without `organizer` is always refused and nothing is stored. |
| Itineraries.BodyUserIgnored | src/controllers/itineraryController.js:21-24 | A `user` given in the body never affects the outcome. |
| Itineraries.UpdateItinerary | src/controllers/itineraryController.js:76-84 | 404 exactly for an unknown id, and then nothing changes. Otherwise each field given in the body overwrites the stored one, and each field left out keeps its stored value. |
| Itineraries.EmptyUpdateIsIdentity | src/controllers/itineraryController.js:78 | An update with an empty body leaves the store as it was. |
| Itineraries.UpdateIdempotent | src/controllers/itineraryController.js:78 | Applying the same update twice is the same as applying it once. |
| Itineraries.UpdateSkipsStatusEnum | src/controllers/itineraryController.js:78 | An update stores a status that the schema's enum would refuse at creation. |
| Itineraries.DeleteItinerary | src/controllers/itineraryController.js:87-95 | 404 exactly for an unknown id. Otherwise exactly that itinerary leaves the store, and the others are untouched. |
| Itineraries.DeleteTwice | src/controllers/itineraryController.js:87-95 | After a delete the id is gone, and deleting it again answers 404 and changes nothing. |
| Itineraries.TripManagerGate | src/routes/itineraryRoutes.js:8-23 | `protect` then `isTripManager` passes exactly an authenticated trip manager. Otherwise it gives the 401 of `protect` or the 403 of the role check. |
| Itineraries.CreateItineraryRoute | src/routes/itineraryRoutes.js:8 | A request that fails the gate gets the gate's answer and changes nothing. A request that passes runs `createItinerary` as the gate's user. A created itinerary therefore belongs to an authenticated trip manager. |
| Itineraries.UpdateItineraryRoute | src/routes/itineraryRoutes.js:20 | Only requests that pass the gate can change the collection. |
| Itineraries.DeleteItineraryRoute | src/routes/itineraryRoutes.js:23 | Only requests that pass the gate can change the collection. |
| Itineraries.TravellerCannotWrite | src/routes/itineraryRoutes.js:8-23 | An authenticated traveller gets 403 from every write route, and the collection is unchanged. |
| Scenario.FollowEachOther | src/controllers/userController.js:96-133 | Two fresh users can follow each other, and afterwards they pass the messaging gate. |
| Scenario.ExchangeMessages | src/controllers/messageController.js:136-192 | "Hello" and then "Hi back" both go through and are stored in that order. |
| Scenario.HistoryOfExchange | src/controllers/messageController.js:83-133 | The history of the two is exactly "Hello" then "Hi back". |
| Scenario.ConversationsOfExchange | src/controllers/messageController.js:7-80 | The sender of "Hello" has exactly one conversation, with the other user. It shows "Hi back" and the other user's name. |

## Left out

- Database failures, ObjectId cast errors and the 500s they cause are not modelled. The exception is the dereference of a missing caller record, which is `ServerError`. Ids are compared as strings, as the handlers compare them through `toString()`.
- Each handler is one atomic step. The two separate updates of follow and unfollow are not interleaved with other requests, so no other request sees a half-done follow.
- JWT signing and verification are a parameter of `protect`: a function from token to the `userId` of its payload, or nothing when verification throws. Password hashing and `matchPassword` are not modelled either. Both live in libraries or in the User model, which is not part of this model.
- Clocks are not modelled. `createdAt` is a natural-number timestamp supplied by the caller. Itinerary dates are abstract ordered values, so the coercing `>` on raw request values is not modelled.
- The User and Message schemas are not part of this model. Their fields are reconstructed from what the controllers read and write, and their validators and defaults are not modelled.
- `createUser`, `getAllUsers`, `getUserById`, `updateUser`, `deleteUser`, `getFollowing`, `getFollowers` and `updateUserInterests` are left out: they are plain CRUD outside the modelled core. The same holds for `login`, `getProfile`, `updateProfile`, `getMe`, the event controller and the itinerary read handlers.
- `Users.FollowConsistent` only constrains pairs of existing users, because `deleteUser` leaves dangling follow references behind.
- `Messaging.SortByTime` is a stable sort. The database's order among messages with equal `createdAt` is unspecified.
- `Conversations.GetConversations` returns a map keyed by counterpart. The aggregation fixes no output order, and among messages with equal timestamps the model keeps the earlier-stored one, where the database may pick either.
- Conversations.Format: the fallback to the current time for a falsy `createdAt` is not modelled, because timestamps are always set.
- JsStrings.ToLower: only ASCII letters are lower-cased, not the full Unicode case mapping of `toLowerCase`.
- String lengths count characters, not the UTF-16 code units that JavaScript counts.
- Registration.GoogleAuth requires a store whose emails are unique and whose records sit under their ids. That is what the unique email index of the User model guarantees.
- `isOwnerOrTripManager` is modelled, but no route uses it, so no route composition includes it.
- Events.AvailableSpots: `capacity` is an integer, where the schema allows any Number.
- Itineraries.SchemaErrors: Mongoose type casting is not modelled, so a body value of the wrong type never yields a CastError. The order of the joined messages is assumed to be schema order.
- The Itinerary schema's `destinations` and `events` sub-document arrays are not modelled. They carry no validator, so they never cause a refusal. The spread `{...req.body}` stores them unchanged, and no modelled handler reads them.
- Itineraries.UpdateItinerary: only the fields of the request body record are modelled. Operators and unknown paths in an update body are not.
