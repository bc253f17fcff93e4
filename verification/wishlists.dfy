/**
 The wishlist handlers: one wishlist per user (the unique index on `user`),
 holding an ordered list of event ids and one of itinerary ids. Event and
 itinerary ids are compared as strings.
 */
module Wishlists {

  import opened Outcomes
  import opened Lists
  import opened Users

  type ItemId = string

  datatype Wishlist = Wishlist(user: UserId, events: seq<ItemId>, itineraries: seq<ItemId>)

  /** The wishlists collection, keyed by owner: the unique index on `user`. */
  type Store = map<UserId, Wishlist>

  /** The two kinds of wishlist entry. */
  datatype Kind = EventKind | ItineraryKind

  /** The answer when the item to add does not exist. */
  function MissingMessage(k: Kind): string {
    match k
    case EventKind => "Event not found"
    case ItineraryKind => "Itinerary not found"
  }

  /** The answer when the item to add is already listed. */
  function DuplicateMessage(k: Kind): string {
    match k
    case EventKind => "Event already in wishlist"
    case ItineraryKind => "Itinerary already in wishlist"
  }

  /** The list of entries of kind `k`. */
  function Items(w: Wishlist, k: Kind): seq<ItemId> {
    match k
    case EventKind => w.events
    case ItineraryKind => w.itineraries
  }

  /** `w` with its list of kind `k` replaced. */
  function WithItems(w: Wishlist, k: Kind, xs: seq<ItemId>): (w': Wishlist)
    ensures Items(w', k) == xs
    ensures forall k' :: k' != k ==> Items(w', k') == Items(w, k')
    ensures w'.user == w.user
  {
    match k
    case EventKind => w.(events := xs)
    case ItineraryKind => w.(itineraries := xs)
  }

  /** Every wishlist sits under its owner. */
  ghost predicate WellKeyed(ws: Store) {
    forall u :: u in ws ==> ws[u].user == u
  }

  /** A fresh wishlist of `u` with nothing in it. */
  function Empty(u: UserId): Wishlist {
    Wishlist(u, [], [])
  }

  /** `getWishlist`: the caller's wishlist, created empty when missing. */
  function GetWishlist(ws: Store, u: UserId): (r: Transition<Store, Wishlist>)
    ensures r.result.Ok? && u in r.after && r.result.value == r.after[u]
    ensures u in ws ==> r.after == ws
    ensures u !in ws ==> r.after == ws[u := Empty(u)] && r.result.value.events == [] && r.result.value.itineraries == []
  {
    if u in ws then Transition(ws, Ok(ws[u]))
    else Transition(ws[u := Empty(u)], Ok(Empty(u)))
  }

  /** A second `getWishlist` changes nothing. */
  lemma GetWishlistIdempotent(ws: Store, u: UserId)
    ensures var r := GetWishlist(ws, u); GetWishlist(r.after, u) == r
  {
  }

  /** Adding an entry of kind `k`: the id must name an existing item (404);
      a missing wishlist is created holding just this id; an id already in
      the list is refused (400); otherwise it is appended. */
  function AddItem(ws: Store, k: Kind, known: set<ItemId>, u: UserId, id: ItemId): (r: Transition<Store, Wishlist>)
    ensures id !in known <==> r.result == Fail(NotFound(MissingMessage(k)))
    ensures r.result == Fail(BadRequest(DuplicateMessage(k)))
      <==> id in known && u in ws && id in Items(ws[u], k)
    ensures r.result.Ok? <==> id in known && (u in ws ==> id !in Items(ws[u], k))
    ensures r.result.Fail? ==> r.after == ws
    ensures r.result.Ok? ==>
      && r.after.Keys == ws.Keys + {u}
      && r.result.value == r.after[u]
      && (forall v :: v in ws && v != u ==> r.after[v] == ws[v])
      && var prev := if u in ws then ws[u] else Empty(u);
         && Items(r.after[u], k) == Items(prev, k) + [id]
         && r.after[u] == WithItems(prev, k, Items(r.after[u], k))
  {
    if id !in known then Transition(ws, Fail(NotFound(MissingMessage(k))))
    else if u !in ws then
      var w := WithItems(Empty(u), k, [id]);
      Transition(ws[u := w], Ok(w))
    else if id in Items(ws[u], k) then Transition(ws, Fail(BadRequest(DuplicateMessage(k))))
    else
      var w := WithItems(ws[u], k, Items(ws[u], k) + [id]);
      Transition(ws[u := w], Ok(w))
  }

  /** Removing an entry of kind `k`: 404 without a wishlist; otherwise every
      occurrence of the id leaves the list, the rest keep their order, and
      an absent id changes nothing. */
  function RemoveItem(ws: Store, k: Kind, u: UserId, id: ItemId): (r: Transition<Store, Wishlist>)
    ensures u !in ws <==> r.result == Fail(NotFound("Wishlist not found"))
    ensures r.result.Ok? <==> u in ws
    ensures r.result.Fail? ==> r.after == ws
    ensures r.result.Ok? ==>
      && r.after == ws[u := r.result.value]
      && Items(r.result.value, k) == RemoveAll(Items(ws[u], k), id)
      && r.result.value == WithItems(ws[u], k, Items(r.result.value, k))
      && id !in Items(r.result.value, k)
      && (id !in Items(ws[u], k) ==> r.after == ws)
  {
    if u !in ws then Transition(ws, Fail(NotFound("Wishlist not found")))
    else
      var xs := Items(ws[u], k);
      var w := WithItems(ws[u], k, RemoveAll(xs, id));
      if id in xs then Transition(ws[u := w], Ok(w))
      else RemoveAllAbsent(xs, id); Transition(ws[u := w], Ok(w))
  }

  /** `addEventToWishlist`: adds to `events`, never touches `itineraries`. */
  function AddEventToWishlist(ws: Store, events: set<ItemId>, u: UserId, eventId: ItemId): (r: Transition<Store, Wishlist>)
    ensures eventId !in events <==> r.result == Fail(NotFound("Event not found"))
    ensures r.result.Ok? <==> eventId in events && (u in ws ==> eventId !in ws[u].events)
    ensures r.result == Fail(BadRequest("Event already in wishlist"))
      <==> eventId in events && u in ws && eventId in ws[u].events
    ensures r.result.Fail? ==> r.after == ws
    ensures r.result.Ok? ==> u in r.after && r.after == ws[u := r.after[u]] && r.result.value == r.after[u]
    ensures r.result.Ok? && u !in ws ==> r.after[u] == Wishlist(u, [eventId], [])
    ensures r.result.Ok? && u in ws ==>
      r.after[u] == ws[u].(events := ws[u].events + [eventId])
  {
    AddItem(ws, EventKind, events, u, eventId)
  }

  /** `removeEventFromWishlist`: removes from `events`, never touches
      `itineraries`. */
  function RemoveEventFromWishlist(ws: Store, u: UserId, eventId: ItemId): (r: Transition<Store, Wishlist>)
    ensures u !in ws <==> r.result.Fail?
    ensures u !in ws ==> r == Transition(ws, Fail(NotFound("Wishlist not found")))
    ensures r.result.Ok? ==> u in r.after && r.after == ws[u := r.after[u]] && r.result.value == r.after[u]
    ensures r.result.Ok? ==>
      r.after[u] == ws[u].(events := RemoveAll(ws[u].events, eventId))
  {
    RemoveItem(ws, EventKind, u, eventId)
  }

  /** `addItineraryToWishlist`: adds to `itineraries`, never touches
      `events`. */
  function AddItineraryToWishlist(ws: Store, itineraries: set<ItemId>, u: UserId, itineraryId: ItemId): (r: Transition<Store, Wishlist>)
    ensures itineraryId !in itineraries <==> r.result == Fail(NotFound("Itinerary not found"))
    ensures r.result.Ok? <==> itineraryId in itineraries && (u in ws ==> itineraryId !in ws[u].itineraries)
    ensures r.result == Fail(BadRequest("Itinerary already in wishlist"))
      <==> itineraryId in itineraries && u in ws && itineraryId in ws[u].itineraries
    ensures r.result.Fail? ==> r.after == ws
    ensures r.result.Ok? ==> u in r.after && r.after == ws[u := r.after[u]] && r.result.value == r.after[u]
    ensures r.result.Ok? && u !in ws ==> r.after[u] == Wishlist(u, [], [itineraryId])
    ensures r.result.Ok? && u in ws ==>
      r.after[u] == ws[u].(itineraries := ws[u].itineraries + [itineraryId])
  {
    AddItem(ws, ItineraryKind, itineraries, u, itineraryId)
  }

  /** `removeItineraryFromWishlist`: removes from `itineraries`, never
      touches `events`. */
  function RemoveItineraryFromWishlist(ws: Store, u: UserId, itineraryId: ItemId): (r: Transition<Store, Wishlist>)
    ensures u !in ws <==> r.result.Fail?
    ensures u !in ws ==> r == Transition(ws, Fail(NotFound("Wishlist not found")))
    ensures r.result.Ok? ==> u in r.after && r.after == ws[u := r.after[u]] && r.result.value == r.after[u]
    ensures r.result.Ok? ==>
      r.after[u] == ws[u].(itineraries := RemoveAll(ws[u].itineraries, itineraryId))
  {
    RemoveItem(ws, ItineraryKind, u, itineraryId)
  }

  /** `checkWishlistItem`: 400 for a type other than "event" or
      "itinerary"; false without a wishlist; list membership otherwise. */
  function CheckWishlistItem(ws: Store, u: UserId, kind: string, itemId: ItemId): (r: Result<bool>)
    ensures r.Fail? <==> kind != "event" && kind != "itinerary"
    ensures r.Fail? ==> r.failure == BadRequest("Invalid type parameter")
    ensures r.Ok? ==> (r.value <==> u in ws && itemId in Items(ws[u], if kind == "event" then EventKind else ItineraryKind))
  {
    if kind != "event" && kind != "itinerary" then Fail(BadRequest("Invalid type parameter"))
    else if u !in ws then Ok(false)
    else if kind == "event" then Ok(itemId in ws[u].events)
    else Ok(itemId in ws[u].itineraries)
  }

  /** The name `checkWishlistItem` uses for a kind. */
  function TypeParam(k: Kind): string {
    match k
    case EventKind => "event"
    case ItineraryKind => "itinerary"
  }

  /** Adding never creates a duplicate entry. */
  lemma AddKeepsNoDuplicates(ws: Store, k: Kind, known: set<ItemId>, u: UserId, id: ItemId)
    requires u in ws ==> NoDuplicates(Items(ws[u], k))
    ensures var r := AddItem(ws, k, known, u, id);
      u in r.after ==> NoDuplicates(Items(r.after[u], k))
  {
    var r := AddItem(ws, k, known, u, id);
    if r.result.Ok? && u in ws {
      assert Items(r.after[u], k) == AddToSet(Items(ws[u], k), id);
      AddToSetKeepsNoDuplicates(Items(ws[u], k), id);
    }
  }

  /** Once added, an item is reported as in the wishlist; once removed, it
      is not. */
  lemma AddThenCheckRemoveThenCheck(ws: Store, k: Kind, known: set<ItemId>, u: UserId, id: ItemId)
    ensures AddItem(ws, k, known, u, id).result.Ok? ==>
      CheckWishlistItem(AddItem(ws, k, known, u, id).after, u, TypeParam(k), id) == Ok(true)
    ensures RemoveItem(ws, k, u, id).result.Ok? ==>
      CheckWishlistItem(RemoveItem(ws, k, u, id).after, u, TypeParam(k), id) == Ok(false)
  {
  }

  /** Removing an item right after adding it to an existing wishlist gives
      back the store as it was. */
  lemma AddThenRemove(ws: Store, k: Kind, known: set<ItemId>, u: UserId, id: ItemId)
    requires u in ws
    requires AddItem(ws, k, known, u, id).result.Ok?
    ensures RemoveItem(AddItem(ws, k, known, u, id).after, k, u, id).after == ws
  {
    var xs := Items(ws[u], k);
    AddToSetThenRemoveAll(xs, id);
    var added := WithItems(ws[u], k, xs + [id]);
    var a := AddItem(ws, k, known, u, id).after;
    assert a == ws[u := added];
    var r := RemoveItem(a, k, u, id);
    assert RemoveAll(Items(added, k), id) == xs;
    assert r.result.value == WithItems(added, k, xs);
    assert WithItems(added, k, xs) == ws[u] by {
      match k
      case EventKind => {}
      case ItineraryKind => {}
    }
    assert r.after == ws[u := added][u := ws[u]];
  }

  /** Every handler keeps each wishlist under its owner. */
  lemma HandlersKeepWellKeyed(ws: Store, k: Kind, known: set<ItemId>, u: UserId, id: ItemId)
    requires WellKeyed(ws)
    ensures WellKeyed(GetWishlist(ws, u).after)
    ensures WellKeyed(AddItem(ws, k, known, u, id).after)
    ensures WellKeyed(RemoveItem(ws, k, u, id).after)
  {
  }
}
