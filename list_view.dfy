/** The list view (`frontend/src/components/ListView.jsx`): the events of
    the selected day in order of start, the marks on the days of the month
    grid, and the header count. Dates are compared, as the component does,
    through their `yyyy-MM-dd` text. */
module ListView {
  import opened Common
  import opened Calendar
  import opened Events

  /** The event starts on the day written `day`. */
  function StartsOn(day: string): Event -> bool {
    (e: Event) => e.start.date.Valid() && FormatDate(e.start.date) == day
  }

  /** `eventsForSelectedDate`. */
  function DayList(events: seq<Event>, selected: Date): seq<Event>
    requires selected.Valid()
  {
    ByStart(Filter(events, StartsOn(FormatDate(selected))))
  }

  /** Every date the component meets is a real one within Luxon's years. */
  predicate Dated(events: seq<Event>) {
    AllValid(events) && forall k :: 0 <= k < |events| ==> events[k].start.date.year <= MaxYear
  }

  predicate OnDay(e: Event, d: Date) {
    e.start.date == d
  }

  lemma StartsOnIff(e: Event, d: Date)
    requires ValidEvent(e) && e.start.date.year <= MaxYear && d.Valid() && d.year <= MaxYear
    ensures StartsOn(FormatDate(d))(e) <==> OnDay(e, d)
  {
    FormatDateInjective(e.start.date, d);
  }

  /** The day list holds exactly the events that start on the selected
      day, each as often as in the input, in ascending order of start. */
  lemma DayListSpec(events: seq<Event>, selected: Date)
    requires Dated(events) && selected.Valid() && selected.year <= MaxYear
    ensures var r := DayList(events, selected);
            (forall e :: e in r <==> e in events && OnDay(e, selected)) &&
            (forall e :: multiset(r)[e] == if OnDay(e, selected) then multiset(events)[e] else 0) &&
            forall i, j :: 0 <= i < j < |r| ==> !Before(r[j].start, r[i].start)
  {
    var p := StartsOn(FormatDate(selected));
    var owned := Filter(events, p);
    FilterSpec(events, p);
    forall e | e in events ensures p(e) <==> OnDay(e, selected) {
      StartsOnIff(e, selected);
    }
    FilterValid(events, p);
    ByStartSpec(owned);
    SameMembers(DayList(events, selected), owned);
    forall e ensures multiset(DayList(events, selected))[e] == if OnDay(e, selected) then multiset(events)[e] else 0 {
      FilterCount(events, p, e);
      if e !in events {
        assert multiset(events)[e] == 0;
      }
    }
  }

  /** `hasEvents` of a grid cell. */
  predicate HasEvents(events: seq<Event>, cell: Date)
    requires cell.Valid()
  {
    exists k :: 0 <= k < |events| && StartsOn(FormatDate(cell))(events[k])
  }

  /** A cell is marked exactly when some event starts on it, that is, when
      its day list would not be empty. */
  lemma HasEventsSpec(events: seq<Event>, cell: Date)
    requires Dated(events) && cell.Valid() && cell.year <= MaxYear
    ensures HasEvents(events, cell) <==> exists k :: 0 <= k < |events| && OnDay(events[k], cell)
    ensures HasEvents(events, cell) <==> DayList(events, cell) != []
  {
    var p := StartsOn(FormatDate(cell));
    forall k | 0 <= k < |events| ensures p(events[k]) <==> OnDay(events[k], cell) {
      StartsOnIff(events[k], cell);
    }
    DayListSpec(events, cell);
    var r := DayList(events, cell);
    if HasEvents(events, cell) {
      var k :| 0 <= k < |events| && OnDay(events[k], cell);
      assert events[k] in r;
    }
    if r != [] {
      assert r[0] in r;
      var k :| 0 <= k < |events| && events[k] == r[0];
      assert OnDay(events[k], cell);
    }
  }

  /** `isSelected` of a grid cell. */
  predicate IsSelected(cell: Date, selected: Date)
    requires cell.Valid() && selected.Valid()
  {
    FormatDate(cell) == FormatDate(selected)
  }

  lemma IsSelectedSpec(cell: Date, selected: Date)
    requires cell.Valid() && selected.Valid() && cell.year <= MaxYear && selected.year <= MaxYear
    ensures IsSelected(cell, selected) <==> cell == selected
  {
    FormatDateInjective(cell, selected);
  }

  /** The header line under the selected day, and whether the list below
      shows the empty state. */
  datatype Header = Header(count: nat, word: string, emptyState: bool)

  function HeaderOf(events: seq<Event>, selected: Date): Header
    requires selected.Valid()
  {
    var n := |DayList(events, selected)|;
    Header(n, if n == 1 then "събитие" else "събития", n == 0)
  }

  /** The empty state shows exactly on an unmarked day, and the singular is
      used for a day with exactly one event. */
  lemma HeaderSpec(events: seq<Event>, selected: Date)
    requires Dated(events) && selected.Valid() && selected.year <= MaxYear
    ensures HeaderOf(events, selected).emptyState <==> !HasEvents(events, selected)
    ensures HeaderOf(events, selected).word == "събитие" <==>
              |Filter(events, StartsOn(FormatDate(selected)))| == 1
  {
    HasEventsSpec(events, selected);
    var p := StartsOn(FormatDate(selected));
    FilterValid(events, p);
    ByStartSpec(Filter(events, p));
  }

  /** An entry of the month grid, drawn as a background mark. */
  datatype Mark = Mark(id: int, title: string, start: DateTime, end: Option<DateTime>)

  /** One mark per event, keeping its key, title and start; an event
      without an end gives a mark without one. */
  function Marks(events: seq<Event>): (r: seq<Mark>)
    ensures |r| == |events|
    ensures forall k :: 0 <= k < |r| ==>
              r[k].id == events[k].id && r[k].title == events[k].title &&
              r[k].start == events[k].start && r[k].end == events[k].end
  {
    if events == [] then [] else [Mark(events[0].id, events[0].title, events[0].start, events[0].end)] + Marks(events[1..])
  }
}
