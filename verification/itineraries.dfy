/**
 Itinerary creation: the controller's own checks, the schema validation of
 the Itinerary model that runs when the document is saved, and the route
 that puts `protect` and the trip-manager check in front of it. Dates are
 an ordered abstract value (`int`); the source compares the raw request
 values.
 */
module Itineraries {

  import opened Outcomes
  import opened JsStrings
  import opened Users
  import opened Lists
  import AuthMiddleware

  type Date = int

  /** The request body. Fields the schema does not know (`destination`,
      `startDate`, `endDate`) are checked by the controller and then dropped
      by the model. The schema's `destinations` and `events` sub-document
      arrays carry no validator and are not modelled. */
  datatype ItineraryBody = ItineraryBody(
    title: Option<string>,
    description: Option<string>,
    destination: Option<string>,
    startDate: Option<Date>,
    endDate: Option<Date>,
    user: Option<UserId>,
    organizer: Option<UserId>,
    price: Option<int>,
    days: Option<int>,
    nights: Option<int>,
    status: Option<string>,
    rewardPoints: Option<int>)

  /** A stored itinerary. */
  datatype Itinerary = Itinerary(
    title: string,
    description: Option<string>,
    user: UserId,
    organizer: UserId,
    price: int,
    days: int,
    nights: int,
    status: string,
    rewardPoints: int)

  /** The status values the schema accepts. */
  predicate IsItineraryStatus(s: string) {
    s == "Draft" || s == "Published" || s == "Confirmed" || s == "Completed"
  }

  /** The six paths the schema marks `required`, in schema order. */
  datatype RequiredPath = TitlePath | UserPath | OrganizerPath | PricePath | DaysPath | NightsPath

  /** The name of a required path in the schema. */
  function PathName(p: RequiredPath): (name: string)
    ensures PathOf(name) == Some(p)
  {
    match p
    case TitlePath => "title"
    case UserPath => "user"
    case OrganizerPath => "organizer"
    case PricePath => "price"
    case DaysPath => "days"
    case NightsPath => "nights"
  }

  /** The required path a name denotes, if any. */
  function PathOf(name: string): Option<RequiredPath> {
    if name == "title" then Some(TitlePath)
    else if name == "user" then Some(UserPath)
    else if name == "organizer" then Some(OrganizerPath)
    else if name == "price" then Some(PricePath)
    else if name == "days" then Some(DaysPath)
    else if name == "nights" then Some(NightsPath)
    else None
  }

  /** `doc` leaves the required path `p` out. A title must also be
      non-empty. */
  predicate Missing(doc: ItineraryBody, p: RequiredPath) {
    match p
    case TitlePath => !Present(doc.title)
    case UserPath => doc.user.None?
    case OrganizerPath => doc.organizer.None?
    case PricePath => doc.price.None?
    case DaysPath => doc.days.None?
    case NightsPath => doc.nights.None?
  }

  /** The message of a failed `required` validator. */
  function Required(p: RequiredPath): (msg: string)
    ensures |msg| > 0 && msg[0] == 'P'
  {
    "Path `" + PathName(p) + "` is required."
  }

  /** Distinct paths give distinct messages. */
  lemma RequiredInjective()
    ensures forall a, b :: Required(a) == Required(b) ==> a == b
  {
    forall a, b | Required(a) == Required(b) ensures a == b {
      var na, nb := PathName(a), PathName(b);
      assert |na| == |nb|;
      assert na == Required(a)[6..6 + |na|];
      assert nb == Required(b)[6..6 + |nb|];
    }
  }

  /** The message of a failed `enum` validator on `status`. */
  function EnumError(value: string): (msg: string)
    ensures |msg| > 0 && msg[0] == '`'
  {
    "`" + value + "` is not a valid enum value for path `status`."
  }

  /** A required path's position in the schema. */
  function Rank(p: RequiredPath): nat {
    match p
    case TitlePath => 0
    case UserPath => 1
    case OrganizerPath => 2
    case PricePath => 3
    case DaysPath => 4
    case NightsPath => 5
  }

  /** `ps` lists paths in strictly increasing schema order. */
  predicate InSchemaOrder(ps: seq<RequiredPath>) {
    forall i, j :: 0 <= i < j < |ps| ==> Rank(ps[i]) < Rank(ps[j])
  }

  /** `[x]` when the check `failed`, nothing otherwise. */
  function Report<T>(failed: bool, x: T): (xs: seq<T>)
    ensures xs == [] <==> !failed
    ensures failed ==> xs == [x]
  {
    if failed then [x] else []
  }

  /** Every required path, in schema order. */
  const AllPaths: seq<RequiredPath> := [TitlePath, UserPath, OrganizerPath, PricePath, DaysPath, NightsPath]

  /** `AllPaths` lists every required path. */
  lemma AllPathsComplete()
    ensures forall p :: p in AllPaths
  {
    forall p ensures p in AllPaths {
      match p
      case TitlePath => assert AllPaths[0] == p;
      case UserPath => assert AllPaths[1] == p;
      case OrganizerPath => assert AllPaths[2] == p;
      case PricePath => assert AllPaths[3] == p;
      case DaysPath => assert AllPaths[4] == p;
      case NightsPath => assert AllPaths[5] == p;
    }
  }

  /** The `required` messages of the paths of `ps` that `doc` leaves out,
      in the order of `ps`. */
  function RequiredErrorsOf(doc: ItineraryBody, ps: seq<RequiredPath>): (errs: seq<string>)
    ensures forall p :: Required(p) in errs <==> p in ps && Missing(doc, p)
    ensures forall e :: e in errs ==> |e| > 0 && e[0] == 'P'
    ensures errs == [] <==> forall p :: p in ps ==> !Missing(doc, p)
    ensures forall e :: e in errs ==> exists p :: p in ps && Missing(doc, p) && e == Required(p)
  {
    if ps == [] then []
    else
      var rest := RequiredErrorsOf(doc, ps[1..]);
      RequiredErrorsStep(doc, ps, rest);
      RequiredErrorsStepOnly(doc, ps, rest);
      Report(Missing(doc, ps[0]), Required(ps[0])) + rest
  }

  /** One step of `RequiredErrorsOf`: the message of the first path, when
      it is missing, in front of those of the others. */
  lemma RequiredErrorsStep(doc: ItineraryBody, ps: seq<RequiredPath>, rest: seq<string>)
    requires ps != []
    requires forall p :: Required(p) in rest <==> p in ps[1..] && Missing(doc, p)
    requires forall e :: e in rest ==> |e| > 0 && e[0] == 'P'
    requires rest == [] <==> forall p :: p in ps[1..] ==> !Missing(doc, p)
    ensures var errs := Report(Missing(doc, ps[0]), Required(ps[0])) + rest;
      && (forall p :: Required(p) in errs <==> p in ps && Missing(doc, p))
      && (forall e :: e in errs ==> |e| > 0 && e[0] == 'P')
      && (errs == [] <==> forall p :: p in ps ==> !Missing(doc, p))
  {
    RequiredInjective();
    assert ps == [ps[0]] + ps[1..];
  }

  /** The no-other-message half of a step of `RequiredErrorsOf`. */
  lemma RequiredErrorsStepOnly(doc: ItineraryBody, ps: seq<RequiredPath>, rest: seq<string>)
    requires ps != []
    requires forall e :: e in rest ==> exists p :: p in ps[1..] && Missing(doc, p) && e == Required(p)
    ensures forall e :: e in Report(Missing(doc, ps[0]), Required(ps[0])) + rest ==>
      exists p :: p in ps && Missing(doc, p) && e == Required(p)
  {
    assert ps == [ps[0]] + ps[1..];
  }

  /** The tail of a list in schema order is in schema order. */
  lemma InSchemaOrderTail(ps: seq<RequiredPath>)
    requires ps != [] && InSchemaOrder(ps)
    ensures InSchemaOrder(ps[1..])
    ensures forall q :: q in ps[1..] ==> Rank(ps[0]) < Rank(q)
  {
    forall i, j | 0 <= i < j < |ps[1..]| ensures Rank(ps[1..][i]) < Rank(ps[1..][j]) {
      assert ps[1..][i] == ps[i + 1] && ps[1..][j] == ps[j + 1];
    }
    forall q | q in ps[1..] ensures Rank(ps[0]) < Rank(q) {
      var k :| 0 <= k < |ps[1..]| && ps[1..][k] == q;
      assert ps[k + 1] == q;
    }
  }

  /** `AllPaths` is in schema order. */
  lemma AllPathsInSchemaOrder()
    ensures InSchemaOrder(AllPaths)
  {
  }

  /** The paths of `ps` that `doc` leaves out, in the order of `ps`. */
  function MissingPaths(doc: ItineraryBody, ps: seq<RequiredPath>): (ms: seq<RequiredPath>)
    ensures forall p :: p in ms <==> p in ps && Missing(doc, p)
    ensures InSchemaOrder(ps) ==> InSchemaOrder(ms)
  {
    if ps == [] then []
    else
      var rest := MissingPaths(doc, ps[1..]);
      MissingPathsStep(doc, ps, rest);
      Report(Missing(doc, ps[0]), ps[0]) + rest
  }

  /** One step of `MissingPaths`: the first path, when it is missing, in
      front of the missing ones among the others. */
  lemma MissingPathsStep(doc: ItineraryBody, ps: seq<RequiredPath>, rest: seq<RequiredPath>)
    requires ps != []
    requires forall p :: p in rest <==> p in ps[1..] && Missing(doc, p)
    requires InSchemaOrder(ps[1..]) ==> InSchemaOrder(rest)
    ensures var ms := Report(Missing(doc, ps[0]), ps[0]) + rest;
      && (forall p :: p in ms <==> p in ps && Missing(doc, p))
      && (InSchemaOrder(ps) ==> InSchemaOrder(ms))
  {
    assert ps == [ps[0]] + ps[1..];
    var ms := Report(Missing(doc, ps[0]), ps[0]) + rest;
    if InSchemaOrder(ps) {
      InSchemaOrderTail(ps);
      if Missing(doc, ps[0]) {
        forall i, j | 0 <= i < j < |ms| ensures Rank(ms[i]) < Rank(ms[j]) {
          assert ms[j] == rest[j - 1] && rest[j - 1] in rest;
          if i > 0 {
            assert ms[i] == rest[i - 1];
          }
        }
      } else {
        assert ms == rest;
      }
    }
  }

  /** The `required` messages of the paths `ms`, in the same order. */
  function Messages(ms: seq<RequiredPath>): (errs: seq<string>)
    ensures |errs| == |ms|
    ensures forall i :: 0 <= i < |ms| ==> errs[i] == Required(ms[i])
  {
    if ms == [] then [] else [Required(ms[0])] + Messages(ms[1..])
  }

  /** The messages of paths in strictly increasing schema order are
      pairwise distinct. */
  lemma MessagesDistinct(ms: seq<RequiredPath>)
    requires InSchemaOrder(ms)
    ensures NoDuplicates(Messages(ms))
  {
    RequiredInjective();
    var errs := Messages(ms);
    forall i, j | 0 <= i < j < |errs| ensures errs[i] != errs[j] {
      assert Rank(ms[i]) < Rank(ms[j]);
    }
  }

  /** The `required` messages of `ps` are exactly the messages of its
      missing paths, in the same order. */
  lemma {:induction false} RequiredErrorsOfMissingPaths(doc: ItineraryBody, ps: seq<RequiredPath>)
    ensures RequiredErrorsOf(doc, ps) == Messages(MissingPaths(doc, ps))
    decreases |ps|
  {
    if ps != [] {
      RequiredErrorsOfMissingPaths(doc, ps[1..]);
      var rest := MissingPaths(doc, ps[1..]);
      if Missing(doc, ps[0]) {
        var ms := [ps[0]] + rest;
        assert ms[0] == ps[0] && ms[1..] == rest;
      }
    }
  }

  /** The messages of the six `required` validators, in schema order: one
      for each missing path and no other. */
  function RequiredErrors(doc: ItineraryBody): (errs: seq<string>)
    ensures forall p :: Required(p) in errs <==> Missing(doc, p)
    ensures forall e :: e in errs ==> |e| > 0 && e[0] == 'P'
    ensures errs == [] <==>
      Present(doc.title) && doc.user.Some? && doc.organizer.Some?
      && doc.price.Some? && doc.days.Some? && doc.nights.Some?
    ensures Required(TitlePath) in errs <==> !Present(doc.title)
    ensures Required(UserPath) in errs <==> doc.user.None?
    ensures Required(OrganizerPath) in errs <==> doc.organizer.None?
    ensures Required(PricePath) in errs <==> doc.price.None?
    ensures Required(DaysPath) in errs <==> doc.days.None?
    ensures Required(NightsPath) in errs <==> doc.nights.None?
  {
    AllPathsComplete();
    RequiredErrorsOf(doc, AllPaths)
  }

  /** `RequiredErrors` is the messages of the missing paths, in schema
      order. */
  lemma RequiredErrorsAreMessages(doc: ItineraryBody)
    ensures RequiredErrors(doc) == Messages(MissingPaths(doc, AllPaths))
    ensures InSchemaOrder(MissingPaths(doc, AllPaths))
  {
    AllPathsInSchemaOrder();
    RequiredErrorsOfMissingPaths(doc, AllPaths);
  }

  /** `RequiredErrors` reports nothing but the messages of missing paths. */
  lemma RequiredErrorsOnly(doc: ItineraryBody)
    ensures forall e :: e in RequiredErrors(doc) ==> exists p :: Missing(doc, p) && e == Required(p)
  {
  }

  /** `RequiredErrors` reports each message once. */
  lemma RequiredErrorsDistinct(doc: ItineraryBody)
    ensures NoDuplicates(RequiredErrors(doc))
  {
    RequiredErrorsAreMessages(doc);
    MessagesDistinct(MissingPaths(doc, AllPaths));
  }

  /** The schema's validation errors for a document, in schema order: the
      required messages of the missing paths, then the status enum
      message when the status is not allowed. */
  function SchemaErrors(doc: ItineraryBody): (errs: seq<string>)
    ensures errs == [] <==>
      && Present(doc.title) && doc.user.Some? && doc.organizer.Some?
      && doc.price.Some? && doc.days.Some? && doc.nights.Some?
      && (doc.status.Some? ==> IsItineraryStatus(doc.status.value))
    ensures forall p :: Required(p) in errs <==> Missing(doc, p)
    ensures EnumError(OrElse(doc.status, "")) in errs <==> doc.status.Some? && !IsItineraryStatus(doc.status.value)
    ensures errs != [] ==> |errs[0]| > 0 && (errs[0][0] == 'P' || errs[0][0] == '`')
  {
    var req := RequiredErrors(doc);
    var bad := doc.status.Some? && !IsItineraryStatus(doc.status.value);
    var enum := Report(bad, EnumError(OrElse(doc.status, "")));
    assert EnumError(OrElse(doc.status, "")) !in req;
    assert forall p :: Required(p) !in enum;
    assert |req + enum| == |req| + |enum|;
    req + enum
  }

  /** `SchemaErrors` reports nothing but the `required` messages of missing
      paths and, when the status is not allowed, the enum message. */
  lemma SchemaErrorsOnly(doc: ItineraryBody)
    ensures forall e :: e in SchemaErrors(doc) ==>
      || (exists p :: Missing(doc, p) && e == Required(p))
      || (e == EnumError(OrElse(doc.status, "")) && doc.status.Some? && !IsItineraryStatus(doc.status.value))
  {
    RequiredErrorsOnly(doc);
  }

  /** `SchemaErrors` reports first the `required` messages of the missing
      paths in schema order, then at most one more message, which by
      `SchemaErrors`' own clauses is the enum message. With those clauses,
      `SchemaErrorsDistinct` and `SchemaErrorsEnumLast`, this fixes the
      list, and so the joined text. */
  lemma SchemaErrorsOrdered(doc: ItineraryBody)
    ensures Messages(MissingPaths(doc, AllPaths)) <= SchemaErrors(doc)
    ensures |SchemaErrors(doc)| <= |MissingPaths(doc, AllPaths)| + 1
  {
    RequiredErrorsAreMessages(doc);
  }

  /** `SchemaErrors` reports each message once. */
  lemma SchemaErrorsDistinct(doc: ItineraryBody)
    ensures NoDuplicates(SchemaErrors(doc))
  {
    var req := RequiredErrors(doc);
    var enum := Report(doc.status.Some? && !IsItineraryStatus(doc.status.value), EnumError(OrElse(doc.status, "")));
    assert EnumError(OrElse(doc.status, "")) !in req;
    RequiredErrorsDistinct(doc);
    AppendDistinct(req, enum);
  }

  /** The enum message, when reported, comes last. */
  lemma SchemaErrorsEnumLast(doc: ItineraryBody)
    ensures EnumError(OrElse(doc.status, "")) in SchemaErrors(doc) ==>
      SchemaErrors(doc)[|SchemaErrors(doc)| - 1] == EnumError(OrElse(doc.status, ""))
  {
    var errs := SchemaErrors(doc);
    var x := EnumError(OrElse(doc.status, ""));
    if x in errs {
      var req := RequiredErrors(doc);
      assert errs == req + [x];
    }
  }

  /** Appending at most one message that is not there yet keeps the
      messages distinct. */
  lemma AppendDistinct(req: seq<string>, extra: seq<string>)
    requires NoDuplicates(req)
    requires |extra| <= 1
    requires forall e :: e in extra ==> e !in req
    ensures NoDuplicates(req + extra)
  {
    var errs := req + extra;
    forall i, j | 0 <= i < j < |errs| ensures errs[i] != errs[j] {
      if j >= |req| {
        assert errs[j] == extra[j - |req|];
        assert errs[j] in extra;
        if i < |req| { assert errs[i] == req[i] && req[i] in req; }
      } else {
        assert errs[i] == req[i] && errs[j] == req[j];
      }
    }
  }

  type ItineraryId = string

  /** The itineraries collection, keyed by document id. */
  type Store = map<ItineraryId, Itinerary>

  /** `createItinerary`: 400 when title, destination, start or end date is
      missing; 400 when the start date is after the end date (equal dates
      pass); the authenticated user replaces any `user` in the body; every
      save failure is a 400 carrying the joined validation messages. The
      new document's id is a parameter. */
  function CreateItinerary(store: Store, current: UserId, body: ItineraryBody, newId: ItineraryId)
    : (r: Transition<Store, Itinerary>)
    requires newId !in store
    ensures r.result == Fail(BadRequest("Missing required fields"))
      <==> !Present(body.title) || !Present(body.destination) || body.startDate.None? || body.endDate.None?
    ensures r.result == Fail(BadRequest("Start date cannot be after end date"))
      <==> Present(body.title) && Present(body.destination) && body.startDate.Some? && body.endDate.Some?
           && body.startDate.value > body.endDate.value
    ensures r.result.Ok? <==>
      && Present(body.title) && Present(body.destination) && body.startDate.Some? && body.endDate.Some?
      && body.startDate.value <= body.endDate.value
      && SchemaErrors(body.(user := Some(current))) == []
    ensures r.result.Fail? ==> r.result.failure.BadRequest? && r.after == store
    ensures (r.result.Fail? && Present(body.title) && Present(body.destination)
      && body.startDate.Some? && body.endDate.Some? && body.startDate.value <= body.endDate.value) ==>
      r.result.failure == BadRequest(Join(SchemaErrors(body.(user := Some(current))), ", "))
    ensures r.result.Ok? ==>
      && r.after == store[newId := r.result.value]
      && r.result.value.user == current
      && Some(r.result.value.organizer) == body.organizer
      && r.result.value.title == body.title.value
      && body.startDate.value <= body.endDate.value
      && IsItineraryStatus(r.result.value.status)
      && r.result.value.status == (if body.status.Some? then body.status.value else "Draft")
      && r.result.value.rewardPoints == (if body.rewardPoints.Some? then body.rewardPoints.value else 0)
      && r.result.value.description == body.description
      && Some(r.result.value.price) == body.price
      && Some(r.result.value.days) == body.days
      && Some(r.result.value.nights) == body.nights
  {
    if !Present(body.title) || !Present(body.destination) || body.startDate.None? || body.endDate.None? then
      Transition(store, Fail(BadRequest("Missing required fields")))
    else if body.startDate.value > body.endDate.value then
      Transition(store, Fail(BadRequest("Start date cannot be after end date")))
    else Save(store, body.(user := Some(current)), newId)
  }

  /** `save()` on a new document: 400 with every validation message joined
      by ", " when the schema refuses it, otherwise stored under `newId`
      with the schema's defaults filled in. */
  function Save(store: Store, doc: ItineraryBody, newId: ItineraryId): (r: Transition<Store, Itinerary>)
    requires newId !in store
    ensures r.result.Fail? <==> SchemaErrors(doc) != []
    ensures r.result.Fail? ==>
      && r.after == store
      && r.result.failure == BadRequest(Join(SchemaErrors(doc), ", "))
      && r.result.failure != BadRequest("Missing required fields")
      && r.result.failure != BadRequest("Start date cannot be after end date")
    ensures r.result.Ok? ==>
      && r.after == store[newId := r.result.value]
      && Some(r.result.value.user) == doc.user
      && Some(r.result.value.organizer) == doc.organizer
      && Some(r.result.value.title) == doc.title
      && IsItineraryStatus(r.result.value.status)
      && r.result.value.status == (if doc.status.Some? then doc.status.value else "Draft")
      && r.result.value.rewardPoints == (if doc.rewardPoints.Some? then doc.rewardPoints.value else 0)
      && r.result.value.description == doc.description
      && Some(r.result.value.price) == doc.price
      && Some(r.result.value.days) == doc.days
      && Some(r.result.value.nights) == doc.nights
  {
    var errs := SchemaErrors(doc);
    if errs != [] then Transition(store, Fail(ValidationFailure(errs)))
    else
      var it := Itinerary(doc.title.value, doc.description, doc.user.value, doc.organizer.value,
                          doc.price.value, doc.days.value, doc.nights.value,
                          if doc.status.Some? then doc.status.value else "Draft",
                          if doc.rewardPoints.Some? then doc.rewardPoints.value else 0);
      Transition(store[newId := it], Ok(it))
  }

  /** The 400 answer for a refused save: the messages joined by ", ". It
      cannot be mistaken for either of the controller's own answers. */
  function ValidationFailure(errs: seq<string>): (f: Failure)
    requires errs != [] && |errs[0]| > 0 && (errs[0][0] == 'P' || errs[0][0] == '`')
    ensures f == BadRequest(Join(errs, ", "))
    ensures f.BadRequest? && errs[0] <= f.message
    ensures f != BadRequest("Missing required fields")
    ensures f != BadRequest("Start date cannot be after end date")
  {
    assert Join(errs, ", ")[0] == errs[0][0];
    BadRequest(Join(errs, ", "))
  }

  /** The controller never fills in `organizer`, which the schema requires:
      a body without one is always refused with 400 and nothing is stored. */
  lemma CreateWithoutOrganizerFails(store: Store, current: UserId, body: ItineraryBody, newId: ItineraryId)
    requires newId !in store
    requires body.organizer.None?
    ensures CreateItinerary(store, current, body, newId).result.Fail?
    ensures CreateItinerary(store, current, body, newId).after == store
  {
  }

  /** The `user` in the body never reaches the store: two bodies differing
      only there give the same outcome. */
  lemma BodyUserIgnored(store: Store, current: UserId, body: ItineraryBody, other: Option<UserId>, newId: ItineraryId)
    requires newId !in store
    ensures CreateItinerary(store, current, body.(user := other), newId) == CreateItinerary(store, current, body, newId)
  {
    assert body.(user := other).(user := Some(current)) == body.(user := Some(current));
  }

  /** `updateItinerary`: 404 when no document has the id; otherwise every
      field present in the body overwrites the stored one. The update runs
      without the schema's validators. */
  function UpdateItinerary(store: Store, id: ItineraryId, body: ItineraryBody): (r: Transition<Store, Itinerary>)
    ensures id !in store <==> r.result == Fail(NotFound("Itinerary not found"))
    ensures r.result.Fail? ==> r.after == store
    ensures r.result.Ok? ==>
      && r.after == store[id := r.result.value]
      && (body.title.Some? ==> r.result.value.title == body.title.value)
      && (body.title.None? ==> r.result.value.title == store[id].title)
      && (body.status.Some? ==> r.result.value.status == body.status.value)
      && (body.status.None? ==> r.result.value.status == store[id].status)
      && r.result.value.description == (if body.description.Some? then body.description else store[id].description)
      && r.result.value.user == (if body.user.Some? then body.user.value else store[id].user)
      && r.result.value.organizer == (if body.organizer.Some? then body.organizer.value else store[id].organizer)
      && r.result.value.price == (if body.price.Some? then body.price.value else store[id].price)
      && r.result.value.days == (if body.days.Some? then body.days.value else store[id].days)
      && r.result.value.nights == (if body.nights.Some? then body.nights.value else store[id].nights)
      && r.result.value.rewardPoints == (if body.rewardPoints.Some? then body.rewardPoints.value else store[id].rewardPoints)
  {
    if id !in store then Transition(store, Fail(NotFound("Itinerary not found")))
    else
      var prev := store[id];
      var it := Itinerary(
        if body.title.Some? then body.title.value else prev.title,
        if body.description.Some? then body.description else prev.description,
        if body.user.Some? then body.user.value else prev.user,
        if body.organizer.Some? then body.organizer.value else prev.organizer,
        if body.price.Some? then body.price.value else prev.price,
        if body.days.Some? then body.days.value else prev.days,
        if body.nights.Some? then body.nights.value else prev.nights,
        if body.status.Some? then body.status.value else prev.status,
        if body.rewardPoints.Some? then body.rewardPoints.value else prev.rewardPoints);
      Transition(store[id := it], Ok(it))
  }

  /** An update body with nothing in it changes nothing. */
  lemma EmptyUpdateIsIdentity(store: Store, id: ItineraryId)
    requires id in store
    ensures UpdateItinerary(store, id, ItineraryBody(None, None, None, None, None, None, None, None, None, None, None, None)).after == store
  {
  }

  /** Applying the same update twice is the same as applying it once. */
  lemma UpdateIdempotent(store: Store, id: ItineraryId, body: ItineraryBody)
    ensures var once := UpdateItinerary(store, id, body);
      UpdateItinerary(once.after, id, body) == once
  {
    if id in store {
      var once := UpdateItinerary(store, id, body);
      var twice := UpdateItinerary(once.after, id, body);
      assert twice.result.value == once.result.value;
      assert once.after[id := once.result.value] == once.after;
    }
  }

  /** Updates skip the enum check: a status the schema refuses at creation
      is stored by an update. */
  lemma UpdateSkipsStatusEnum(store: Store, id: ItineraryId)
    requires id in store
    ensures var body := ItineraryBody(None, None, None, None, None, None, None, None, None, None, Some("Archived"), None);
      && !IsItineraryStatus("Archived")
      && UpdateItinerary(store, id, body).after[id].status == "Archived"
  {
  }

  /** `deleteItinerary`: 404 when no document has the id; otherwise it is
      removed and nothing else is. */
  function DeleteItinerary(store: Store, id: ItineraryId): (r: Transition<Store, string>)
    ensures id !in store <==> r.result == Fail(NotFound("Itinerary not found"))
    ensures r.result.Fail? ==> r.after == store
    ensures r.result.Ok? ==> r.after.Keys == store.Keys - {id}
    ensures forall k :: k in r.after ==> k in store && r.after[k] == store[k]
  {
    if id !in store then Transition(store, Fail(NotFound("Itinerary not found")))
    else Transition(store - {id}, Ok("Itinerary deleted successfully"))
  }

  /** Deleting twice: the second call finds nothing, answers 404 and
      changes nothing further. */
  lemma DeleteTwice(store: Store, id: ItineraryId)
    ensures var once := DeleteItinerary(store, id);
      && id !in once.after
      && DeleteItinerary(once.after, id) == Transition(once.after, Fail(NotFound("Itinerary not found")))
  {
  }

  /** The middleware chain the create, update and delete routes share:
      `protect`, then `isTripManager` on the user it attached. */
  function TripManagerGate(users: Users.Store, header: Option<string>, verify: string -> Option<UserId>)
    : (r: Result<User>)
    ensures r.Ok? <==> AuthMiddleware.Protect(users, header, verify).Ok?
                       && AuthMiddleware.Protect(users, header, verify).value.role == TripManager
    ensures r.Ok? ==> r == AuthMiddleware.Protect(users, header, verify)
    ensures AuthMiddleware.Protect(users, header, verify).Fail? ==> r == AuthMiddleware.Protect(users, header, verify)
    ensures AuthMiddleware.Protect(users, header, verify).Ok? && r.Fail? ==>
      r == Fail(Forbidden("Access denied. Trip manager role required."))
  {
    match AuthMiddleware.Protect(users, header, verify)
    case Fail(f) => Fail(f)
    case Ok(user) =>
      match AuthMiddleware.IsTripManager(Some(user))
      case Fail(f) => Fail(f)
      case Ok(_) => Ok(user)
  }

  /** `POST /`: the gate, then `createItinerary` as the gate's user. */
  function CreateItineraryRoute(users: Users.Store, header: Option<string>, verify: string -> Option<UserId>,
                                store: Store, body: ItineraryBody, newId: ItineraryId)
    : (r: Transition<Store, Itinerary>)
    requires newId !in store
    ensures r.result.Ok? ==>
      var caller := AuthMiddleware.Protect(users, header, verify);
      && caller.Ok? && caller.value.role == TripManager
      && r.result.value.user == caller.value.id
    ensures TripManagerGate(users, header, verify).Fail? ==>
      r == Transition(store, Fail(TripManagerGate(users, header, verify).failure))
    ensures TripManagerGate(users, header, verify).Ok? ==>
      r == CreateItinerary(store, TripManagerGate(users, header, verify).value.id, body, newId)
    ensures r.result.Fail? ==> r.after == store
  {
    match TripManagerGate(users, header, verify)
    case Fail(f) => Transition(store, Fail(f))
    case Ok(user) => CreateItinerary(store, user.id, body, newId)
  }

  /** `PUT /:id`: the gate, then `updateItinerary`. */
  function UpdateItineraryRoute(users: Users.Store, header: Option<string>, verify: string -> Option<UserId>,
                                store: Store, id: ItineraryId, body: ItineraryBody)
    : (r: Transition<Store, Itinerary>)
    ensures r.after != store ==> TripManagerGate(users, header, verify).Ok?
    ensures TripManagerGate(users, header, verify).Fail? ==>
      r == Transition(store, Fail(TripManagerGate(users, header, verify).failure))
    ensures TripManagerGate(users, header, verify).Ok? ==> r == UpdateItinerary(store, id, body)
  {
    match TripManagerGate(users, header, verify)
    case Fail(f) => Transition(store, Fail(f))
    case Ok(_) => UpdateItinerary(store, id, body)
  }

  /** `DELETE /:id`: the gate, then `deleteItinerary`. */
  function DeleteItineraryRoute(users: Users.Store, header: Option<string>, verify: string -> Option<UserId>,
                                store: Store, id: ItineraryId)
    : (r: Transition<Store, string>)
    ensures r.after != store ==> TripManagerGate(users, header, verify).Ok?
    ensures TripManagerGate(users, header, verify).Fail? ==>
      r == Transition(store, Fail(TripManagerGate(users, header, verify).failure))
    ensures TripManagerGate(users, header, verify).Ok? ==> r == DeleteItinerary(store, id)
  {
    match TripManagerGate(users, header, verify)
    case Fail(f) => Transition(store, Fail(f))
    case Ok(_) => DeleteItinerary(store, id)
  }

  /** A traveller holding a valid token changes no itinerary: every write
      route answers 403 and leaves the collection as it was. */
  lemma TravellerCannotWrite(users: Users.Store, header: Option<string>, verify: string -> Option<UserId>,
                             store: Store, id: ItineraryId, body: ItineraryBody, newId: ItineraryId)
    requires newId !in store
    requires AuthMiddleware.Protect(users, header, verify).Ok?
    requires AuthMiddleware.Protect(users, header, verify).value.role == Traveller
    ensures CreateItineraryRoute(users, header, verify, store, body, newId)
            == Transition(store, Fail(Forbidden("Access denied. Trip manager role required.")))
    ensures UpdateItineraryRoute(users, header, verify, store, id, body)
            == Transition(store, Fail(Forbidden("Access denied. Trip manager role required.")))
    ensures DeleteItineraryRoute(users, header, verify, store, id)
            == Transition(store, Fail(Forbidden("Access denied. Trip manager role required.")))
  {
  }
}
