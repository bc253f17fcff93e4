/**
 The Event model: its enumerated fields with their defaults, and the two
 capacity helpers, the `isFull` virtual and `getAvailableSpots`. Both
 helpers count every participant entry, whatever its status.
 */
module Events {

  import opened Outcomes
  import opened Users

  datatype Category = Cultural | Adventure | Food | Sightseeing | Workshop | Other

  datatype ParticipantStatus = Registered | Waitlisted | Cancelled

  datatype EventStatus = Draft | Published | Cancelled | Completed

  /** The stored spelling of each category. */
  function CategoryName(c: Category): string {
    match c
    case Cultural => "Cultural"
    case Adventure => "Adventure"
    case Food => "Food"
    case Sightseeing => "Sightseeing"
    case Workshop => "Workshop"
    case Other => "Other"
  }

  /** The category enum check: exactly the six spellings are accepted. */
  function ParseCategory(s: string): (r: Option<Category>)
    ensures r.Some? ==> CategoryName(r.value) == s
  {
    if s == "Cultural" then Some(Cultural)
    else if s == "Adventure" then Some(Adventure)
    else if s == "Food" then Some(Food)
    else if s == "Sightseeing" then Some(Sightseeing)
    else if s == "Workshop" then Some(Workshop)
    else if s == "Other" then Some(Other)
    else None
  }

  /** Every category is accepted under its own spelling. */
  lemma CategoryRoundTrip(c: Category)
    ensures ParseCategory(CategoryName(c)) == Some(c)
  {
  }

  /** The stored spelling of each participant status. */
  function ParticipantStatusName(p: ParticipantStatus): string {
    match p
    case Registered => "registered"
    case Waitlisted => "waitlisted"
    case Cancelled => "cancelled"
  }

  /** The participant status enum check; an absent status takes the default,
      registered. */
  function ParseParticipantStatus(o: Option<string>): (r: Option<ParticipantStatus>)
    ensures o.None? ==> r == Some(Registered)
    ensures o.Some? && r.Some? ==> ParticipantStatusName(r.value) == o.value
  {
    if o.None? then Some(Registered)
    else if o.value == "registered" then Some(Registered)
    else if o.value == "waitlisted" then Some(Waitlisted)
    else if o.value == "cancelled" then Some(ParticipantStatus.Cancelled)
    else None
  }

  /** Every participant status is accepted under its own spelling. */
  lemma ParticipantStatusRoundTrip(p: ParticipantStatus)
    ensures ParseParticipantStatus(Some(ParticipantStatusName(p))) == Some(p)
  {
  }

  /** The stored spelling of each event status. */
  function EventStatusName(e: EventStatus): string {
    match e
    case Draft => "draft"
    case Published => "published"
    case Cancelled => "cancelled"
    case Completed => "completed"
  }

  /** The event status enum check; an absent status takes the default,
      draft. */
  function ParseEventStatus(o: Option<string>): (r: Option<EventStatus>)
    ensures o.None? ==> r == Some(Draft)
    ensures o.Some? && r.Some? ==> EventStatusName(r.value) == o.value
  {
    if o.None? then Some(Draft)
    else if o.value == "draft" then Some(Draft)
    else if o.value == "published" then Some(Published)
    else if o.value == "cancelled" then Some(EventStatus.Cancelled)
    else if o.value == "completed" then Some(Completed)
    else None
  }

  /** Every event status is accepted under its own spelling. */
  lemma EventStatusRoundTrip(e: EventStatus)
    ensures ParseEventStatus(Some(EventStatusName(e))) == Some(e)
  {
  }

  datatype Participant = Participant(user: UserId, status: ParticipantStatus, registeredAt: nat)

  /** An event, with the fields the capacity helpers and the enums concern. */
  datatype Event = Event(
    title: string,
    category: Category,
    capacity: int,
    participants: seq<Participant>,
    status: EventStatus)

  /** The `isFull` virtual: as many participant entries as the capacity,
      or more. */
  function IsFull(e: Event): (full: bool)
    ensures full <==> AvailableSpots(e) <= 0
    ensures e.participants == [] ==> (full <==> e.capacity <= 0)
  {
    |e.participants| >= e.capacity
  }

  /** `getAvailableSpots`: capacity minus participant entries, negative
      when the event is over-subscribed. */
  function AvailableSpots(e: Event): (spots: int)
    ensures spots + |e.participants| == e.capacity
    ensures spots <= e.capacity
  {
    e.capacity - |e.participants|
  }

  /** An event is full exactly when no spot is available. */
  lemma FullIffNoSpots(e: Event)
    ensures IsFull(e) <==> AvailableSpots(e) <= 0
  {
  }

  /** Adding one participant entry takes exactly one spot. */
  lemma JoinTakesOneSpot(e: Event, p: Participant)
    ensures AvailableSpots(e.(participants := e.participants + [p])) == AvailableSpots(e) - 1
  {
  }

  /** The helpers depend on the number of entries only: changing statuses,
      e.g. cancelling or waitlisting, changes neither. */
  lemma StatusDoesNotCount(e: Event, ps: seq<Participant>)
    requires |ps| == |e.participants|
    ensures IsFull(e.(participants := ps)) == IsFull(e)
    ensures AvailableSpots(e.(participants := ps)) == AvailableSpots(e)
  {
  }

  /** A one-seat event whose only entry is cancelled still counts as full. */
  lemma CancelledEntryFillsEvent()
    ensures var e := Event("t", Other, 1, [Participant("u", ParticipantStatus.Cancelled, 0)], Published);
      IsFull(e) && AvailableSpots(e) == 0
  {
  }
}
