/** The event row shared by the back end (`models.Event`, `schemas.EventOut`)
    and the front end (the JSON objects listed by `/events`), and the two
    rules every layer applies to it: ordering by start and the one-hour
    default end. */
module Events {
  import opened Common
  import opened Calendar

  datatype Event = Event(
    id: int,
    title: string,
    start: DateTime,
    end: Option<DateTime>,
    rawText: Option<string>,
    ownerId: int)

  predicate ValidEvent(e: Event) {
    e.start.Valid() && (e.end.Some? ==> e.end.value.Valid())
  }

  predicate AllValid(es: seq<Event>) {
    forall k :: 0 <= k < |es| ==> ValidEvent(es[k])
  }

  /** Keeping some of the events keeps them valid. */
  lemma FilterValid(es: seq<Event>, p: Event -> bool)
    requires AllValid(es)
    ensures AllValid(Filter(es, p))
  {
    var kept := Filter(es, p);
    FilterSpec(es, p);
    forall k | 0 <= k < |kept| ensures ValidEvent(kept[k]) {
      assert kept[k] in es;
    }
  }

  /** The instant of the start, the key that `order_by(start.asc())` and the
      front end's `toMillis()` comparison sort by. */
  function StartKey(e: Event): int {
    if e.start.Valid() then Instant(e.start) else 0
  }

  /** Events in ascending order of start; ties keep their order. */
  function ByStart(es: seq<Event>): seq<Event> {
    SortByKey(es, StartKey)
  }

  /** Sorting by start keeps exactly the same events, and no event is
      preceded by one that starts later. */
  lemma ByStartSpec(es: seq<Event>)
    requires AllValid(es)
    ensures multiset(ByStart(es)) == multiset(es)
    ensures |ByStart(es)| == |es|
    ensures AllValid(ByStart(es))
    ensures forall i, j :: 0 <= i < j < |ByStart(es)| ==>
              !Before(ByStart(es)[j].start, ByStart(es)[i].start)
  {
    SortByKeySpec(es, StartKey);
    var r := ByStart(es);
    forall k | 0 <= k < |r| ensures ValidEvent(r[k]) {
      assert r[k] in multiset(es);
      var j :| 0 <= j < |es| && es[j] == r[k];
    }
    forall i, j | 0 <= i < j < |r| ensures !Before(r[j].start, r[i].start) {
      assert ValidEvent(r[i]) && ValidEvent(r[j]);
      BeforeInstant(r[j].start, r[i].start);
    }
  }

  /** `end if end else start + timedelta(hours=1)`. */
  function EndOrDefault(start: DateTime, end: Option<DateTime>): (r: DateTime)
    requires start.Valid()
  {
    match end
    case Some(e) => e
    case None => PlusHour(start)
  }

  /** A missing end is exactly one hour after the start; a given end is kept. */
  lemma EndOrDefaultSpec(start: DateTime, end: Option<DateTime>)
    requires start.Valid()
    ensures end.Some? ==> EndOrDefault(start, end) == end.value
    ensures end.None? ==> EndOrDefault(start, end).Valid() &&
                          Instant(EndOrDefault(start, end)) == Instant(start) + MicrosPerHour
  {
    if end.None? { PlusHourInstant(start); }
  }

  /** The error both services give for a missing or empty text. */
  const NoText := "Не е подаден текст."

  /** The reply of a `/parse` endpoint; `Crashed` is an exception that no
      handler catches, answered with status 500. */
  datatype ParseReply =
    | ParseOk(title: string, start: string, end: string, tokens: seq<string>, labels: seq<string>)
    | ParseError(error: string)
    | Crashed
}
