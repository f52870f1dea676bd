/** The authenticated service in `backend/main.py`: the CORS origin list,
    registration with unique e-mail addresses and user names, `/parse`,
    and the per-owner event endpoints, over tables held in memory. */
module Backend {
  import opened Common
  import opened Calendar
  import opened Events
  import opened NlpParser

  const EmailTaken := "Email already registered"
  const UsernameTaken := "Username already taken"
  const NoDateTime := "Не можах да разбера датата/часа."
  const EventNotFound := "Събитието не е намерено"

  // ---------------------------------------------------------------------------
  // CORS origins

  /** The allowed origins for the `CORS_ORIGINS` value: "*" alone, or each
      comma-separated part stripped. */
  function CorsOrigins(value: string): (r: seq<string>)
    ensures value == "*" ==> r == ["*"]
    ensures value != "*" ==>
              |r| == |SplitOn(value, ',')| &&
              forall k :: 0 <= k < |r| ==> r[k] == Strip(SplitOn(value, ',')[k])
  {
    if value == "*" then ["*"]
    else
      var parts := SplitOn(value, ',');
      seq(|parts|, k requires 0 <= k < |parts| => Strip(parts[k]))
  }

  /** An origin as a list entry: no comma and no blank at either end. */
  predicate PlainOrigin(o: string) {
    ',' !in o && (o == [] || (!IsSpace(o[0]) && !IsSpace(o[|o| - 1])))
  }

  /** Writing a list of plain origins joined by commas into `CORS_ORIGINS`
      gives that list back. */
  lemma CorsOriginsRoundTrip(origins: seq<string>)
    requires origins != [] && origins != ["*"]
    requires forall k :: 0 <= k < |origins| ==> PlainOrigin(origins[k])
    ensures CorsOrigins(Join(origins, ",")) == origins
  {
    JoinedNotStar(origins);
    PlainOriginsSplit(origins);
    PlainOriginsStripped(origins);
    CorsOfParts(Join(origins, ","), origins);
  }

  lemma PlainOriginsSplit(origins: seq<string>)
    requires origins != [] && forall k :: 0 <= k < |origins| ==> PlainOrigin(origins[k])
    ensures SplitOn(Join(origins, ","), ',') == origins
  {
    assert forall k :: 0 <= k < |origins| ==> ',' !in origins[k];
    SplitOnJoin(origins, ',');
  }

  lemma PlainOriginsStripped(origins: seq<string>)
    requires forall k :: 0 <= k < |origins| ==> PlainOrigin(origins[k])
    ensures forall k :: 0 <= k < |origins| ==> Strip(origins[k]) == origins[k]
  {
    forall k | 0 <= k < |origins| ensures Strip(origins[k]) == origins[k] {
      StripUnchanged(origins[k]);
    }
  }

  /** A value other than "*" whose parts are already stripped gives its parts. */
  lemma CorsOfParts(value: string, parts: seq<string>)
    requires value != "*" && SplitOn(value, ',') == parts
    requires forall k :: 0 <= k < |parts| ==> Strip(parts[k]) == parts[k]
    ensures CorsOrigins(value) == parts
  {
  }

  /** A list other than `["*"]` joined by commas is not "*". */
  lemma JoinedNotStar(origins: seq<string>)
    requires origins != [] && origins != ["*"]
    ensures Join(origins, ",") != "*"
  {
    if |origins| > 1 {
      JoinCons(origins, ",");
      assert Join(origins, ",")[|origins[0]|] == ',';
    } else {
      assert origins == [origins[0]];
    }
  }

  // ---------------------------------------------------------------------------
  // Users

  /** A row of the `users` table; the password hash and the creation time
      are not part of this model. */
  datatype User = User(id: int, email: string, username: string, isActive: bool, picture: Option<string>)

  predicate HasEmail(users: seq<User>, email: string) {
    exists k :: 0 <= k < |users| && users[k].email == email
  }

  predicate HasUsername(users: seq<User>, username: string) {
    exists k :: 0 <= k < |users| && users[k].username == username
  }

  /** The first user with that e-mail address. */
  function FindEmail(users: seq<User>, email: string): (r: Option<nat>)
    ensures r.Some? ==> r.value < |users| && users[r.value].email == email &&
                        forall k :: 0 <= k < r.value ==> users[k].email != email
    ensures r.None? <==> !HasEmail(users, email)
  {
    if users == [] then None
    else if users[0].email == email then Some(0)
    else
      assert forall k :: 1 <= k < |users| ==> users[k] == users[1..][k - 1];
      ShiftIndex(FindEmail(users[1..], email), 1)
  }

  function ShiftIndex(k: Option<nat>, offset: nat): Option<nat> {
    match k
    case None => None
    case Some(n) => Some(n + offset)
  }

  /** Keys, e-mail addresses and user names are each unique. */
  predicate UsersValid(users: seq<User>) {
    forall i, j :: 0 <= i < j < |users| ==>
      users[i].id != users[j].id && users[i].email != users[j].email && users[i].username != users[j].username
  }

  function UserId(u: User): int { u.id }

  /** Keys are unique and every stored time is a real one. */
  predicate EventsValid(events: seq<Event>) {
    (forall i, j :: 0 <= i < j < |events| ==> events[i].id != events[j].id) && AllValid(events)
  }

  function EventId(e: Event): int { e.id }

  /** A `POST /events` request body: the direct fields, where a start or
      end that `fromisoformat` cannot read is `None` inside and a missing
      or empty end is `None` outside; or the text to parse. */
  datatype Payload =
    | Direct(title: string, start: Option<DateTime>, end: Option<Option<DateTime>>, rawText: Option<string>)
    | FromText(text: Option<string>)

  predicate PayloadValid(p: Payload) {
    p.Direct? ==> (p.start.Some? ==> p.start.value.Valid()) &&
                  (p.end.Some? && p.end.value.Some? ==> p.end.value.value.Valid())
  }

  /** What `create_event` stores, the `HTTPException` it raises, or an
      exception it does not handle (status 500). */
  datatype Plan =
    | Insert(title: string, start: DateTime, end: DateTime, rawText: Option<string>)
    | Refused(status: int, detail: string)
    | Crash

  function PlanCreate(p: Payload, predicted: seq<string>, now: DateTime): (r: Plan)
    requires now.Valid() && now.date.year <= MaxYear && PayloadValid(p)
    ensures r.Insert? ==> r.start.Valid() && r.end.Valid()
  {
    match p
    case Direct(title, start, end, rawText) =>
      if start.None? then Crash
      else
        (match end
         case None => Insert(title, start.value, PlusHour(start.value), rawText)
         case Some(None) => Crash
         case Some(Some(e)) => Insert(title, start.value, e, rawText))
    case FromText(text) =>
      if text.None? || text.value == [] then Refused(400, NoText)
      else
        ParseCoreShape(text.value, predicted, now, ProgramRule);
        match ParseCore(text.value, predicted, now, ProgramRule)
        case DateError => Crash
        case Parsed(title, start, end, _, _) =>
          if start.None? then Refused(400, NoDateTime)
          else
            ParseCoreTimes(text.value, predicted, now, ProgramRule);
            Insert(title, start.value, EndOrDefault(start.value, end), Some(text.value))
  }

  /** A missing end becomes the start plus one hour on both paths; empty
      text and a text without a start are refused with 400; a text row
      keeps its text. */
  lemma PlanCreateSpec(p: Payload, predicted: seq<string>, now: DateTime)
    requires now.Valid() && now.date.year <= MaxYear && PayloadValid(p)
    ensures p.Direct? && p.start.Some? && p.end.None? ==>
              var r := PlanCreate(p, predicted, now);
              r.Insert? && r.start == p.start.value && Instant(r.end) == Instant(r.start) + MicrosPerHour
    ensures p.FromText? && (p.text.None? || p.text == Some([])) ==> PlanCreate(p, predicted, now) == Refused(400, NoText)
    ensures p.FromText? && p.text.Some? && p.text.value != [] ==>
              var q := ParseCore(p.text.value, predicted, now, ProgramRule);
              var r := PlanCreate(p, predicted, now);
              (q.Parsed? && q.start.None? <==> r == Refused(400, NoDateTime)) &&
              (r.Insert? ==> q.Parsed? && q.start == Some(r.start) && r.title == q.title &&
                             r.rawText == Some(p.text.value) &&
                             (q.end.None? ==> Instant(r.end) == Instant(r.start) + MicrosPerHour) &&
                             (q.end.Some? ==> r.end == q.end.value))
  {
    if p.Direct? && p.start.Some? {
      PlusHourInstant(p.start.value);
    }
    if p.FromText? && p.text.Some? && p.text.value != [] {
      var q := ParseCore(p.text.value, predicted, now, ProgramRule);
      if q.Parsed? && q.start.Some? {
        ParseCoreShape(p.text.value, predicted, now, ProgramRule);
        ParseCoreTimes(p.text.value, predicted, now, ProgramRule);
        EndOrDefaultSpec(q.start.value, q.end);
      }
    }
  }

  /** `/parse`: no text, or a parse without a start, is answered with an
      error; otherwise the start and the end, defaulting to one hour. */
  function ParseEvent(text: Option<string>, predicted: seq<string>, now: DateTime): ParseReply
    requires now.Valid() && now.date.year <= MaxYear
  {
    if text.None? || text.value == [] then ParseError(NoText)
    else
      ParseCoreShape(text.value, predicted, now, ProgramRule);
      match ParseCore(text.value, predicted, now, ProgramRule)
      case DateError => Crashed
      case Parsed(title, start, end, tokens, labels) =>
        if start.None? then ParseError(NoDateTime)
        else
          ParseCoreTimes(text.value, predicted, now, ProgramRule);
          ParseOk(title, PythonIsoFormat(start.value), PythonIsoFormat(EndOrDefault(start.value, end)), tokens, labels)
  }

  lemma ParseEventSpec(text: Option<string>, predicted: seq<string>, now: DateTime)
    requires now.Valid() && now.date.year <= MaxYear
    ensures text.None? || text == Some([]) ==> ParseEvent(text, predicted, now) == ParseError(NoText)
    ensures text.Some? && text.value != [] && Strip(text.value) == [] ==>
              ParseEvent(text, predicted, now) == ParseError(NoDateTime)
    ensures ParseEvent(text, predicted, now).ParseOk? ==>
              text.Some? &&
              var q := ParseCore(text.value, predicted, now, ProgramRule);
              q.Parsed? && q.start.Some? && q.start.value.Valid() &&
              ParseEvent(text, predicted, now).start == PythonIsoFormat(q.start.value) &&
              exists e: DateTime :: e.Valid() && ParseEvent(text, predicted, now).end == PythonIsoFormat(e) &&
                                   (q.end.Some? ==> e == q.end.value) &&
                                   (q.end.None? ==> Instant(e) == Instant(q.start.value) + MicrosPerHour)
  {
    if text.Some? && text.value != [] {
      ParseCoreShape(text.value, predicted, now, ProgramRule);
      var q := ParseCore(text.value, predicted, now, ProgramRule);
      if q.Parsed? && q.start.Some? {
        ParseCoreTimes(text.value, predicted, now, ProgramRule);
        EndOrDefaultSpec(q.start.value, q.end);
        var e := EndOrDefault(q.start.value, q.end);
        assert ParseEvent(text, predicted, now).end == PythonIsoFormat(e);
      }
    }
  }

  /** For a non-empty text the outcome follows the parse: a crash exactly
      when the day number is impossible, a success exactly when a start is
      found, carrying the parse's title, words and labels, and the
      missing-time message when the parse has no start. */
  lemma ParseEventOutcome(text: string, predicted: seq<string>, now: DateTime)
    requires now.Valid() && now.date.year <= MaxYear && text != []
    ensures var q := ParseCore(text, predicted, now, ProgramRule);
            var r := ParseEvent(Some(text), predicted, now);
            (r.Crashed? <==> q.DateError?) &&
            (r.ParseOk? <==> q.Parsed? && q.start.Some?) &&
            (q.Parsed? && q.start.None? ==> r == ParseError(NoDateTime)) &&
            (r.ParseOk? ==> r.title == q.title && r.tokens == q.tokens && r.labels == q.labels)
  {
    ParseCoreShape(text, predicted, now, ProgramRule);
  }

  // ---------------------------------------------------------------------------
  // Listing and deleting

  function OwnedBy(owner: int): Event -> bool {
    (e: Event) => e.ownerId == owner
  }

  /** `list_events`: the owner's events in ascending order of start. */
  function OwnedByStart(events: seq<Event>, owner: int): seq<Event> {
    ByStart(Filter(events, OwnedBy(owner)))
  }

  /** The listing holds exactly the owner's events, each as often as in
      the table, and no event in it starts before the one listed ahead. */
  lemma OwnedByStartSpec(events: seq<Event>, owner: int)
    requires AllValid(events)
    ensures var r := OwnedByStart(events, owner);
            (forall e :: e in r <==> e in events && e.ownerId == owner) &&
            (forall e :: multiset(r)[e] == if e.ownerId == owner then multiset(events)[e] else 0) &&
            forall i, j :: 0 <= i < j < |r| ==> !Before(r[j].start, r[i].start)
  {
    var owned := Filter(events, OwnedBy(owner));
    FilterSpec(events, OwnedBy(owner));
    FilterValid(events, OwnedBy(owner));
    ByStartSpec(owned);
    SameMembers(ByStart(owned), owned);
    forall e ensures multiset(ByStart(owned))[e] == if e.ownerId == owner then multiset(events)[e] else 0 {
      FilterCount(events, OwnedBy(owner), e);
    }
  }

  /** The event `delete_event` finds: the first with that key and owner. */
  function FindOwned(events: seq<Event>, owner: int, id: int): (r: Option<nat>)
    ensures r.Some? ==> r.value < |events| && events[r.value].id == id && events[r.value].ownerId == owner
    ensures r.None? <==> forall k :: 0 <= k < |events| ==> !(events[k].id == id && events[k].ownerId == owner)
  {
    if events == [] then None
    else if events[0].id == id && events[0].ownerId == owner then Some(0)
    else match FindOwned(events[1..], owner, id)
      case Some(k) => Some(k + 1)
      case None => assert forall k :: 1 <= k < |events| ==> events[k] == events[1..][k - 1]; None
  }

  datatype RegisterReply = Registered(user: User) | RegisterRefused(status: int, detail: string)

  datatype EventReply = EventOk(event: Event) | HttpError(status: int, detail: string) | ServerError

  /** The `users` and `events` tables. */
  class Database {
    var users: seq<User>
    var events: seq<Event>

    predicate Valid()
      reads this
    {
      UsersValid(users) && EventsValid(events)
    }

    constructor()
      ensures Valid() && users == [] && events == []
    {
      users, events := [], [];
    }

    /** The user `get_user_by_email` finds. */
    method UserByEmail(email: string) returns (k: Option<nat>)
      ensures k == FindEmail(users, email)
    {
      var i := 0;
      while i < |users|
        invariant 0 <= i <= |users|
        invariant forall k :: 0 <= k < i ==> users[k].email != email
      {
        if users[i].email == email {
          return Some(i);
        }
        i := i + 1;
      }
      return None;
    }

    /** Whether `get_user_by_username` finds a user. */
    method IsUsernameTaken(username: string) returns (taken: bool)
      ensures taken == HasUsername(users, username)
    {
      var i := 0;
      while i < |users|
        invariant 0 <= i <= |users|
        invariant forall k :: 0 <= k < i ==> users[k].username != username
      {
        if users[i].username == username {
          return true;
        }
        i := i + 1;
      }
      return false;
    }

    /** `register_user`: a taken e-mail address is refused first, then a
        taken user name; otherwise an active user is added. */
    method Register(email: string, username: string) returns (r: RegisterReply)
      requires Valid()
      modifies this
      ensures Valid() && events == old(events)
      ensures HasEmail(old(users), email) ==> r == RegisterRefused(400, EmailTaken) && users == old(users)
      ensures !HasEmail(old(users), email) && HasUsername(old(users), username) ==>
                r == RegisterRefused(400, UsernameTaken) && users == old(users)
      ensures !HasEmail(old(users), email) && !HasUsername(old(users), username) ==>
                var u := User(FreshId(old(users), UserId), email, username, true, None);
                users == old(users) + [u] && r == Registered(u)
    {
      var byEmail := UserByEmail(email);
      if byEmail.Some? {
        return RegisterRefused(400, EmailTaken);
      }
      var taken := IsUsernameTaken(username);
      if taken {
        return RegisterRefused(400, UsernameTaken);
      }
      var u := User(FreshId(users, UserId), email, username, true, None);
      users := users + [u];
      r := Registered(u);
    }

    /** `create_event` for the current user `owner`. */
    method CreateEvent(owner: int, p: Payload, predicted: seq<string>, now: DateTime) returns (r: EventReply)
      requires Valid() && now.Valid() && now.date.year <= MaxYear && PayloadValid(p)
      modifies this
      ensures Valid() && users == old(users)
      ensures match PlanCreate(p, predicted, now)
              case Insert(title, start, end, rawText) =>
                var e := Event(FreshId(old(events), EventId), title, start, Some(end), rawText, owner);
                events == old(events) + [e] && r == EventOk(e)
              case Refused(status, detail) => r == HttpError(status, detail) && events == old(events)
              case Crash => r == ServerError && events == old(events)
    {
      var plan := PlanCreate(p, predicted, now);
      match plan
      case Refused(status, detail) => r := HttpError(status, detail);
      case Crash => r := ServerError;
      case Insert(title, start, end, rawText) =>
        var e := Event(FreshId(events, EventId), title, start, Some(end), rawText, owner);
        events := events + [e];
        r := EventOk(e);
    }

    /** The loop that collects the owner's events in table order. */
    method SelectOwned(owner: int) returns (owned: seq<Event>)
      ensures owned == Filter(events, OwnedBy(owner))
    {
      owned := [];
      var i := 0;
      while i < |events|
        invariant 0 <= i <= |events|
        invariant Filter(events, OwnedBy(owner)) == owned + Filter(events[i..], OwnedBy(owner))
      {
        ghost var rest := Filter(events[i + 1..], OwnedBy(owner));
        assert events[i..][1..] == events[i + 1..];
        assert Filter(events[i..], OwnedBy(owner)) == (if events[i].ownerId == owner then [events[i]] else []) + rest;
        if events[i].ownerId == owner {
          assert owned + ([events[i]] + rest) == (owned + [events[i]]) + rest;
          owned := owned + [events[i]];
        } else {
          assert [] + rest == rest;
        }
        i := i + 1;
      }
      assert events[i..] == [];
    }

    /** `list_events` for the current user `owner`. */
    method ListEvents(owner: int) returns (r: seq<Event>)
      requires Valid()
      ensures r == OwnedByStart(events, owner)
      ensures forall e :: e in r <==> e in events && e.ownerId == owner
    {
      var owned := SelectOwned(owner);
      r := ByStart(owned);
      OwnedByStartSpec(events, owner);
    }

    /** `delete_event`: only an event with that key and owner goes, and it
        is returned; otherwise 404 and nothing changes. */
    method DeleteEvent(owner: int, id: int) returns (r: EventReply)
      requires Valid()
      modifies this
      ensures Valid() && users == old(users)
      ensures FindOwned(old(events), owner, id).None? ==>
                r == HttpError(404, EventNotFound) && events == old(events)
      ensures FindOwned(old(events), owner, id).Some? ==>
                var k := FindOwned(old(events), owner, id).value;
                r == EventOk(old(events)[k]) && events == old(events)[..k] + old(events)[k + 1..] &&
                forall j :: 0 <= j < |events| ==> events[j].id != id
    {
      var k := FindOwned(events, owner, id);
      if k.None? {
        return HttpError(404, EventNotFound);
      }
      var gone := events[k.value];
      RemoveEventSpec(events, k.value);
      events := events[..k.value] + events[k.value + 1..];
      r := EventOk(gone);
    }
  }

  /** Taking out one event of a valid table leaves a valid table without its key. */
  lemma RemoveEventSpec(events: seq<Event>, k: nat)
    requires EventsValid(events) && k < |events|
    ensures var rest := events[..k] + events[k + 1..];
            EventsValid(rest) && forall j :: 0 <= j < |rest| ==> rest[j].id != events[k].id
  {
    var rest := events[..k] + events[k + 1..];
    assert forall j :: 0 <= j < |rest| ==> rest[j] == if j < k then events[j] else events[j + 1];
  }
}
