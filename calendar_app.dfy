/** The rest of the `CalendarApp` component in `frontend/src/App.jsx`: the
    dark-mode setting and the events handed to the calendar grid. */
module CalendarApp {
  import opened Common
  import opened Calendar
  import opened Events

  // ---------------------------------------------------------------------------
  // Theme

  /** The mode at start-up: the saved choice, or the system preference when
      nothing is saved. */
  function InitialDark(saved: Option<string>, prefersDark: bool): bool {
    saved == Some("dark") || (saved.None? && prefersDark)
  }

  function ThemeName(dark: bool): string {
    if dark then "dark" else "light"
  }

  /** A saved choice wins over the system preference at the next start. */
  lemma SavedThemeWins(dark: bool, prefersDark: bool)
    ensures InitialDark(Some(ThemeName(dark)), prefersDark) == dark
  {
  }

  /** The mode (`isDarkMode`), the `dark` class on the root element, and
      the `theme` entry of local storage. */
  class Theme {
    var dark: bool
    var rootDark: bool
    var saved: Option<string>

    predicate Valid()
      reads this
    {
      rootDark == dark
    }

    /** The start-up effect. */
    constructor(saved: Option<string>, prefersDark: bool)
      ensures Valid() && this.saved == saved && dark == InitialDark(saved, prefersDark)
    {
      this.saved := saved;
      dark := InitialDark(saved, prefersDark);
      rootDark := InitialDark(saved, prefersDark);
    }

    /** `toggleDarkMode`: flips the mode and saves it. */
    method Toggle()
      requires Valid()
      modifies this
      ensures Valid() && dark == !old(dark) && saved == Some(ThemeName(dark))
    {
      dark := !dark;
      rootDark := dark;
      saved := Some(ThemeName(dark));
    }

    /** A change of the system preference, followed only while nothing is
        saved. */
    method SystemChange(matches: bool)
      requires Valid()
      modifies this
      ensures Valid() && saved == old(saved)
      ensures dark == if saved.None? then matches else old(dark)
    {
      if saved.None? {
        dark := matches;
        rootDark := matches;
      }
    }
  }

  // ---------------------------------------------------------------------------
  // Calendar entries

  /** An entry of the grid: the event's key, title, start and end, where an
      event without an end gives no end, and the event itself. */
  datatype Entry = Entry(id: int, title: string, start: DateTime, end: Option<DateTime>, original: Event)

  function EntryOf(e: Event): Entry {
    Entry(e.id, e.title, e.start, e.end, e)
  }

  /** One entry per event, in the same order, keeping the event's key,
      title and start, with an end exactly when the event has one. */
  function Entries(events: seq<Event>): (r: seq<Entry>)
    ensures |r| == |events|
    ensures forall k :: 0 <= k < |r| ==>
              r[k].id == events[k].id && r[k].title == events[k].title && r[k].start == events[k].start &&
              r[k].end == events[k].end && r[k].original == events[k]
  {
    if events == [] then [] else [EntryOf(events[0])] + Entries(events[1..])
  }
}
